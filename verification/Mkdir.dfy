/** The whole of `mk_dir` on a directory of one block: the walk, the cut of the last entry, the search for
    an inode and a block, and what is left behind when it gives up on the way. */
module Mkdir {
  import opened Options
  import opened DirBlocks
  import opened DirEdits
  import opened DirWalks
  import opened Ext2Model

  const NO_BLOCK: nat := 0xFFFF_FFFF     // -1 as an entry of i_block

  /** The first assignment of `add_directory`: the last entry keeps no more room than it needs. */
  function Trimmed(b: seq<Byte>, last: nat): (c: seq<Byte>)
    requires Readable(b, last)
    ensures |c| == |b|
  {
    if U16(b, last + 4) > 0 then Put16(b, last + 4, Tight(EntryAt(b, last).name)) else b
  }

  /** Where the new entry goes: behind the trimmed one, or in its place if the block is new. */
  function NewOffset(b: seq<Byte>, last: nat): nat
    requires Readable(b, last)
  {
    if U16(b, last + 4) > 0 then last + Tight(EntryAt(b, last).name) else last
  }

  /** The two assignments to record lengths with the search for an inode in between. */
  lemma AddedInSteps(b: seq<Byte>, last: nat, name: Name, inode: nat)
    requires |b| == BLOCK_SIZE && Readable(b, last)
    requires last + Tight(EntryAt(b, last).name) + HEADER + |name| <= BLOCK_SIZE
    ensures var c, o := Trimmed(b, last), NewOffset(b, last);
      && o + HEADER + |name| <= |c| && last + U16(c, last + 4) <= BLOCK_SIZE
      && Added(b, last, name, inode, FT_DIR)
        == PutEntry(c, o, Entry(inode, BLOCK_SIZE - last - U16(c, last + 4), FT_DIR, name))
  {
    hide PutEntry, Tight;
  }

  /** That first assignment in place. */
  method Trim(b: array<Byte>, last: nat) returns (o: nat)
    requires Readable(b[..], last)
    modifies b
    ensures b[..] == Trimmed(old(b[..]), last) && o == NewOffset(old(b[..]), last)
  {
    o := last;
    if U16(b[..], last + 4) > 0 {
      var tight := Tight(EntryAt(b[..], last).name);
      Put(b, last + 4, tight);
      o := last + tight;
    }
  }

  predicate OneBlock(s: Fs, parent: nat) {
    parent < |s.table| && s.table[parent].sectors / 2 == 1
  }

  /** A second block for the directory, with its first record length set to 0; the free counters are not
      touched.  Without a free block -1 is recorded, behind the blocks that count. */
  function Grow(s: Fs, parent: nat): (Fs, Option<nat>)
    requires Shape(s) && OneBlock(s, parent)
  {
    var e := s.table[parent];
    match AllocBlock(s)
    case None => (s.(table := s.table[parent := e.(block := e.block[1 := NO_BLOCK])]), None)
    case Some((t, n)) =>
      (t.(table := t.table[parent := e.(block := e.block[1 := n], sectors := e.sectors + 2)],
          blocks := t.blocks[n := Put16(t.blocks[n], 4, 0)]), Some(n))
  }

  /** `add_directory` in the second block. */
  function MkdirInNewBlock(s: Fs, name: Name, parent: nat): (Fs, bool)
    requires Shape(s) && OneBlock(s, parent)
  {
    match Grow(s, parent)
    case (t, None) => (t, false)
    case (t, Some(n)) =>
      match FreeInode(t)
      case None => (t, false)
      case Some(x) => MakeDirectory(WithEntry(t, n, name, x + 1), parent)
  }

  /** The new directory's entry as the only one of block n. */
  function WithEntry(s: Fs, n: nat, name: Name, inode: nat): (t: Fs)
    requires n < |s.blocks| && U16(s.blocks[n], 4) == 0 && inode < 0x1_0000_0000
  {
    AddToNewBlock(s.blocks[n], name, inode, FT_DIR);
    s.(blocks := s.blocks[n := Added(s.blocks[n], 0, name, inode, FT_DIR)])
  }

  /** `mkdir` on a directory of one block: the image, the block, and whether a directory has been made.
      None when the walk does not come to an end. */
  function MkdirCommand(s: Fs, b: Block, name: Name, parent: nat): Option<(Fs, Block, bool)>
    requires Shape(s) && OneBlock(s, parent)
  {
    match LastSearch(b, name, 0)
    case Broken => None
    case Exists => Some((s, b, false))
    case Last(o) =>
      if !NewFits(b, o, name) then
        var (t, ok) := MkdirInNewBlock(s, name, parent);
        Some((t, b, ok))
      else
        match FreeInode(s)
        case None => Some((s, Trimmed(b, o), false))
        case Some(x) =>
          var (t, ok) := MakeDirectory(s, parent);
          Some((t, Added(b, o, name, x + 1, FT_DIR), ok))
  }

  // ---- The directory block ----

  /** The block has room behind its last entry. */
  ghost predicate HasRoomFor(es: seq<Entry>, name: Name) {
    es != [] && Offset(es, |es| - 1) + Tight(es[|es| - 1].name) + Tight(name) <= BLOCK_SIZE
  }

  /** The block's list is as it was, or has the new entry and nothing else in addition. */
  ghost predicate ListIntact(s: Fs, es: seq<Entry>, name: Name, c: seq<Byte>)
    requires es != [] && s.firstInode < |s.table| == |s.ibits|
  {
    || Tiled(c, es)
    || (FreeInode(s).Some? && Tiled(c, Appended(es, |es| - 1, name, FreeInode(s).value + 1, FT_DIR)))
  }

  /** The command when the walk ends at an entry with room. */
  lemma CommandInserts(s: Fs, b: Block, name: Name, parent: nat, o: nat)
    requires Shape(s) && OneBlock(s, parent) && LastSearch(b, name, 0) == Last(o) && NewFits(b, o, name)
    ensures FreeInode(s) == None ==> MkdirCommand(s, b, name, parent) == Some((s, Trimmed(b, o), false))
    ensures FreeInode(s).Some? ==>
      var (t, ok) := MakeDirectory(s, parent); var c := MkdirInsert(b, name, FreeInode(s).value + 1);
      c.Some? && MkdirCommand(s, b, name, parent) == Some((t, c.value, ok))
  {
    hide Shape, NewFits, LastSearch, MakeDirectory, FreeInode, MkdirInNewBlock, Added, Trimmed;
  }

  lemma CommandGrows(s: Fs, b: Block, name: Name, parent: nat, o: nat)
    requires Shape(s) && OneBlock(s, parent) && LastSearch(b, name, 0) == Last(o) && !NewFits(b, o, name)
    ensures var (t, ok) := MkdirInNewBlock(s, name, parent); MkdirCommand(s, b, name, parent) == Some((t, b, ok))
  {
    hide Shape, NewFits, LastSearch, MakeDirectory, FreeInode, MkdirInNewBlock, Added, Trimmed;
  }

  lemma CommandIdles(s: Fs, b: Block, name: Name, parent: nat)
    requires Shape(s) && OneBlock(s, parent) && LastSearch(b, name, 0) == Exists
    ensures MkdirCommand(s, b, name, parent) == Some((s, b, false))
  {
    hide Shape, NewFits, LastSearch, MakeDirectory, FreeInode, MkdirInNewBlock, Added, Trimmed;
  }

  /** Where the walk ends, and whether the new entry fits there. */
  lemma WalkEnds(b: Block, es: seq<Entry>, name: Name)
    requires Tiled(b, es)
    ensures !Unnamed(es, name, |es|) ==> LastSearch(b, name, 0) == Exists
    ensures var o := Offset(es, |es| - 1);
      Unnamed(es, name, |es|) ==>
        LastSearch(b, name, 0) == Last(o) && Readable(b, o) && (NewFits(b, o, name) <==> HasRoomFor(es, name))
  {
    hide Laid, Offset, Tight, LastSearch;
    if Unnamed(es, name, |es|) {
      LastIsLast(b, es, name);
      EntryThere(b, es, |es| - 1);
    } else {
      NameFound(b, es, name);
    }
  }

  /** What mkdir does to the parent's list, exactly: it is as it was, or has the new entry in addition,
      unless the name is new, there is room and no inode is free. */
  lemma MkdirExactly(s: Fs, b: Block, es: seq<Entry>, name: Name, parent: nat)
    requires Shape(s) && OneBlock(s, parent) && Tiled(b, es)
    ensures MkdirCommand(s, b, name, parent).Some?
    ensures var (t, c, ok) := MkdirCommand(s, b, name, parent).value;
      && (ListIntact(s, es, name, c) <==> FreeInode(s).Some? || !Unnamed(es, name, |es|) || !HasRoomFor(es, name))
      && (!Unnamed(es, name, |es|) ==> t == s && c == b && !ok)
      && (!HasRoomFor(es, name) ==> c == b)
      && (Unnamed(es, name, |es|) && HasRoomFor(es, name) && FreeInode(s).Some? ==>
            Tiled(c, Appended(es, |es| - 1, name, FreeInode(s).value + 1, FT_DIR)))
      && (FreeInode(s) == None && HasRoomFor(es, name) ==> t == s && !ok)
  {
    WalkEnds(b, es, name);
    var o := Offset(es, |es| - 1);
    hide Tiled, MakeDirectory, FreeInode, MkdirInNewBlock, MkdirInsert, Appended, Trimmed, Offset, Tight,
      LastSearch, MkdirCommand, HasRoomFor, NewFits, Unnamed, ListIntact, OneBlock, Shape;
    assert ListIntact(s, es, name, b) by { KeptIsIntact(s, es, name, b); }
    if !Unnamed(es, name, |es|) {
      CommandIdles(s, b, name, parent);
    } else if !HasRoomFor(es, name) {
      CommandGrows(s, b, name, parent, o);
    } else {
      CommandInserts(s, b, name, parent, o);
      if FreeInode(s).Some? {
        InsertedIsIntact(s, b, es, name);
      } else {
        TrimIsNotIntact(s, b, es, name);
      }
    }
  }

  lemma KeptIsIntact(s: Fs, es: seq<Entry>, name: Name, c: seq<Byte>)
    requires s.firstInode < |s.table| == |s.ibits| && Tiled(c, es)
    ensures ListIntact(s, es, name, c)
  {
  }

  lemma InsertedIsIntact(s: Fs, b: Block, es: seq<Entry>, name: Name)
    requires Shape(s) && Tiled(b, es) && Unnamed(es, name, |es|) && HasRoomFor(es, name) && FreeInode(s).Some?
    ensures var c := MkdirInsert(b, name, FreeInode(s).value + 1);
      && c.Some? && ListIntact(s, es, name, c.value)
      && Tiled(c.value, Appended(es, |es| - 1, name, FreeInode(s).value + 1, FT_DIR))
  {
    hide Laid, MkdirInsert, Appended, HasRoomFor, Unnamed, FreeInode;
    FreeNumber(s);
    InsertsHere(b, es, name, FreeInode(s).value + 1);
  }

  lemma TrimIsNotIntact(s: Fs, b: Block, es: seq<Entry>, name: Name)
    requires Shape(s) && Tiled(b, es) && HasRoomFor(es, name) && FreeInode(s) == None
    ensures Readable(b, Offset(es, |es| - 1)) && !ListIntact(s, es, name, Trimmed(b, Offset(es, |es| - 1)))
  {
    hide Laid, Offset, HasRoomFor, FreeInode, Trimmed;
    TrimDiffers(b, es, name);
  }

  lemma FreeNumber(s: Fs)
    requires Shape(s) && FreeInode(s).Some?
    ensures FreeInode(s).value + 1 < 0x1_0000_0000
  {
  }

  lemma InsertsHere(b: Block, es: seq<Entry>, name: Name, inode: nat)
    requires Tiled(b, es) && Unnamed(es, name, |es|) && HasRoomFor(es, name) && inode < 0x1_0000_0000
    ensures MkdirInsert(b, name, inode).Some?
    ensures Tiled(MkdirInsert(b, name, inode).value, Appended(es, |es| - 1, name, inode, FT_DIR))
  {
    hide Laid, MkdirInsert, Appended, Tight, Offset;
    MkdirInsertExactly(b, es, name, inode);
  }

  /** The last entry trimmed: its record length, and nothing else, is a smaller one. */
  lemma TrimIs(b: Block, es: seq<Entry>, name: Name)
    requires Tiled(b, es) && HasRoomFor(es, name)
    ensures var k := |es| - 1; var o, tight := Offset(es, k), Tight(es[k].name);
      && Readable(b, o) && EntryAt(b, o) == es[k] && tight < es[k].recLen && o + es[k].recLen == BLOCK_SIZE
      && Trimmed(b, o) == Put16(b, o + 4, tight)
      && Readable(Trimmed(b, o), o) && EntryAt(Trimmed(b, o), o) == es[k].(recLen := tight)
  {
    hide Laid, Tight, Offset, EntryAt, Readable, Trimmed;
    var k := |es| - 1;
    EntryThere(b, es, k);
    TrimEntry(b, Offset(es, k), es[k]);
  }

  lemma TrimEntry(b: seq<Byte>, o: nat, e: Entry)
    requires Readable(b, o) && EntryAt(b, o) == e && e.recLen > 0
    ensures Trimmed(b, o) == Put16(b, o + 4, Tight(e.name))
    ensures Readable(Trimmed(b, o), o) && EntryAt(Trimmed(b, o), o) == e.(recLen := Tight(e.name))
  {
    hide Tight;
    Put16Entry(b, o, Tight(e.name));
  }

  lemma TrimDiffers(b: Block, es: seq<Entry>, name: Name)
    requires Tiled(b, es) && HasRoomFor(es, name)
    ensures Readable(b, Offset(es, |es| - 1)) && !Tiled(Trimmed(b, Offset(es, |es| - 1)), es)
  {
    hide Tiled, Tight, Offset, Trimmed;
    TrimIs(b, es, name);
    var c := Trimmed(b, Offset(es, |es| - 1));
    if Tiled(c, es) { EntryThere(c, es, |es| - 1); }
  }

  lemma TrimShows(b: Block, es: seq<Entry>, name: Name, gap: seq<Entry>)
    requires Tiled(b, es) && HasRoomFor(es, name) && AllFit(gap)
    requires var k := |es| - 1; Laid(b, Offset(es, k) + Tight(es[k].name), BLOCK_SIZE, gap)
    ensures var k := |es| - 1;
      && Readable(b, Offset(es, k))
      && Tiled(Trimmed(b, Offset(es, k)), es[..k] + [es[k].(recLen := Tight(es[k].name))] + gap)
  {
    var k := |es| - 1;
    assert es != [];
    hide Tiled, Laid, Tight, Offset, Trimmed, Put16, EntryAt, Readable, HasRoomFor, Fits, AllFit;
    TrimIs(b, es, name);
    TrimFits(b, es, name);
    EntryThere(b, es, k);
    ShrinkShows(b, es, k, Tight(es[k].name), gap);
    assert es[k + 1..] == [];
    NothingBehind(es[..k] + [es[k].(recLen := Tight(es[k].name))], gap);
  }

  lemma NothingBehind(before: seq<Entry>, gap: seq<Entry>)
    ensures before + (gap + []) == before + gap
  {
    assert gap + [] == gap;
  }

  lemma TrimFits(b: Block, es: seq<Entry>, name: Name)
    requires Tiled(b, es) && HasRoomFor(es, name)
    ensures var k := |es| - 1; Fits(es[k].(recLen := Tight(es[k].name)))
  {
  }

  /** Without an inode the deleted entries that lie in the last entry's room are entries again. */
  lemma MkdirShows(s: Fs, b: Block, es: seq<Entry>, name: Name, parent: nat, gap: seq<Entry>) returns (c: Block)
    requires Shape(s) && OneBlock(s, parent) && Tiled(b, es) && Unnamed(es, name, |es|) && HasRoomFor(es, name)
    requires FreeInode(s) == None && AllFit(gap)
    requires var k := |es| - 1; Laid(b, Offset(es, k) + Tight(es[k].name), BLOCK_SIZE, gap)
    ensures MkdirCommand(s, b, name, parent) == Some((s, c, false))
    ensures var k := |es| - 1; Tiled(c, es[..k] + [es[k].(recLen := Tight(es[k].name))] + gap)
  {
    WalkEnds(b, es, name);
    hide MkdirCommand, Offset, Tight, LastSearch, NewFits, HasRoomFor, Unnamed, Trimmed, FreeInode, Laid;
    CommandInserts(s, b, name, parent, Offset(es, |es| - 1));
    TrimShows(b, es, name, gap);
    c := Trimmed(b, Offset(es, |es| - 1));
  }

  /** Without an inode, where nothing has ever been stored behind the last entry, no walk for another new
      name comes to an end again: it stands at a record length of 0. */
  lemma MkdirStops(s: Fs, b: Block, es: seq<Entry>, name: Name, parent: nat, other: Name) returns (c: Block)
    requires Shape(s) && OneBlock(s, parent) && Tiled(b, es) && Unnamed(es, name, |es|) && HasRoomFor(es, name)
    requires FreeInode(s) == None && other != [] && Unnamed(es, other, |es|)
    requires var k := |es| - 1; var o := Offset(es, k) + Tight(es[k].name);
      forall i :: o <= i < o + HEADER && i < BLOCK_SIZE ==> b[i] == 0
    ensures MkdirCommand(s, b, name, parent) == Some((s, c, false))
    ensures LastSearch(c, other, 0) == Broken && MkdirCommand(s, c, other, parent) == None
    ensures RmSearch(c, other, 0, 0) == NoProgress
  {
    hide Laid, Tight, Offset, RmSearch, LastSearch, Trimmed;
    var k := |es| - 1;
    WalkEnds(b, es, name);
    CommandInserts(s, b, name, parent, Offset(es, k));
    TrimIs(b, es, name);
    var o := Offset(es, k);
    c := Trimmed(b, o);
    SamePrefixWalk(b, c, es, other, k);
    Standstill(c, o, es[k].(recLen := Tight(es[k].name)), other, SizeBefore(es, k));
  }

  /** Both walks go through the entries before k, whatever follows. */
  lemma {:induction false} SamePrefixWalk(b: seq<Byte>, c: seq<Byte>, es: seq<Entry>, name: Name, k: nat)
    requires Tiled(b, es) && k < |es| && Unnamed(es, name, k) && |c| == |b|
    requires forall i :: 0 <= i < Offset(es, k) && i < |b| ==> c[i] == b[i]
    ensures LastSearch(c, name, 0) == LastSearch(c, name, Offset(es, k))
    ensures RmSearch(c, name, 0, 0) == RmSearch(c, name, Offset(es, k), SizeBefore(es, k))
  {
    hide Tiled, LastSearch, RmSearch;
    if k > 0 {
      OffsetBefore(b, es, k - 1);
      OffsetBefore(b, es, k);
      EntryThere(b, es, k - 1);
      SamePrefixWalk(b, c, es, name, k - 1);
      ReadsBefore(b, c, es, k - 1, k);
      LastStep(c, name, Offset(es, k - 1), es[k - 1]);
      RmStep(c, name, Offset(es, k - 1), SizeBefore(es, k - 1), es[k - 1]);
    }
  }

  /** Behind the entry at o there are zeroes. */
  lemma Standstill(c: seq<Byte>, o: nat, e: Entry, name: Name, lastSize: nat)
    requires |c| == BLOCK_SIZE && Readable(c, o) && EntryAt(c, o) == e && e.recLen > 0
    requires o + e.recLen + HEADER <= BLOCK_SIZE
    requires name != [] && e.name != name && forall i :: o + e.recLen <= i < o + e.recLen + HEADER ==> c[i] == 0
    ensures LastSearch(c, name, o) == Broken && RmSearch(c, name, o, lastSize) == NoProgress
  {
    hide LastSearch, RmSearch;
    var p := o + e.recLen;
    assert Readable(c, p) && EntryAt(c, p) == Entry(0, 0, 0, []);
    LastStep(c, name, o, e);
    RmStep(c, name, o, lastSize, e);
    LastStep(c, name, p, EntryAt(c, p));
    StandsStill(c, name, p, e.recLen);
  }

  lemma StandsStill(c: seq<Byte>, name: Name, p: nat, lastSize: nat)
    requires p < BLOCK_SIZE && Readable(c, p) && EntryAt(c, p).recLen == 0 && EntryAt(c, p).name != name
    ensures RmSearch(c, name, p, lastSize) == NoProgress
  {
  }
}
