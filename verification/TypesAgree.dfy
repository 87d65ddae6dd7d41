/** The entry types that the other tools write are those that the consistency tool asks for. */
module TypesAgree {
  import opened Options
  import opened DirBlocks
  import opened DirEdits
  import opened DirWalks
  import opened Ext2Model
  import opened CopyRemove
  import opened Mkdir
  import opened NewDirectory
  import opened AllocationRuns
  import opened CommandRuns
  import Repair

  /** The entry's type says what the inode is: a regular file, a directory or a symbolic link. */
  predicate Typed(e: Entry, i: Inode) {
    || (e.fileType == FT_REG_FILE && 0x8000 <= i.mode < 0x9000)
    || (e.fileType == FT_DIR && 0x4000 <= i.mode < 0x5000)
    || (e.fileType == FT_SYMLINK && 0xA000 <= i.mode < 0xB000)
  }

  /** Every entry names a live inode and is of its type. */
  ghost predicate AllTyped(s: Fs, es: seq<Entry>) {
    forall k :: 0 <= k < |es| ==> NamesTyped(s, es[k])
  }

  ghost predicate NamesTyped(s: Fs, e: Entry) {
    1 <= e.inode <= |s.table| && Live(s, e.inode - 1) && Typed(e, s.table[e.inode - 1])
  }

  // ---- The consistency tool ----

  /** The type fix does nothing exactly at an entry of the right type, or of unknown type where the inode is
      none of these. */
  lemma TypeFixIdles(s: Repair.Image, slot: Repair.Slot)
    requires Repair.Fixable(s, slot)
    ensures var e := s.dirs[slot.n][slot.k]; var i := s.table[e.inode - 1];
      Repair.FixType(s, slot) == (s, 0) <==>
        Typed(e, i) || (e.fileType == FT_UNKNOWN && forall t: Byte :: !Typed(e.(fileType := t), i))
  {
    var e, i := s.dirs[slot.n][slot.k], s.table[s.dirs[slot.n][slot.k].inode - 1];
    hide Tiled, Repair.Mapped;
    var want := Repair.TypeOf(i.mode);
    if e.fileType == FT_UNKNOWN && want != FT_UNKNOWN { assert Typed(e.(fileType := want), i); }
  }

  /** After it the entry is of the right type if the inode is any of the three; no other entry has changed. */
  lemma TypeFixed(s: Repair.Image, slot: Repair.Slot)
    requires Repair.Fixable(s, slot)
    ensures var t := Repair.FixType(s, slot).0; var e := s.dirs[slot.n][slot.k]; var i := s.table[e.inode - 1];
      && |t.dirs| == |s.dirs| && |t.dirs[slot.n]| == |s.dirs[slot.n]|
      && var f := t.dirs[slot.n][slot.k];
      && (Typed(f, i) || (f.fileType == FT_UNKNOWN && forall u: Byte :: !Typed(e.(fileType := u), i)))
      && t == s.(blocks := t.blocks, dirs := s.dirs[slot.n := s.dirs[slot.n][slot.k := e.(fileType := f.fileType)]])
      && Tiled(t.blocks[slot.n], t.dirs[slot.n])
  {
    hide Tiled, Repair.Mapped, Repair.Kept;
    Repair.FixTypeKeeps(s, slot);
    var t := Repair.FixType(s, slot).0;
    var es, e := s.dirs[slot.n], s.dirs[slot.n][slot.k];
    if t == s { assert es[slot.k := e.(fileType := e.fileType)] == es && s.dirs[slot.n := es] == s.dirs; }
  }

  // ---- Copies ----

  /** Inode x alone changes in the copier's loop, and it stays of the same mode. */
  lemma {:induction false} LoopKeepsMode(c: Copying, x: nat, i: nat)
    requires Shape(c.fs) && x < |c.fs.table| && i <= MAX_LISTED && CopyLoop(c, x, i).Some?
    ensures var d := CopyLoop(c, x, i).value;
      && d.fs.ibits == c.fs.ibits && |d.fs.table| == |c.fs.table| && d.fs.table[x].mode == c.fs.table[x].mode
      && forall y :: 0 <= y < |c.fs.table| && y != x ==> d.fs.table[y] == c.fs.table[y]
  {
    hide CopyTurn;
    if i > 0 {
      LoopKeepsMode(c, x, i - 1);
      var d := CopyLoop(c, x, i - 1).value;
      NextTurn(c, x, i - 1, d);
      TurnKeepsMode(d, x, i - 1);
    }
  }

  lemma TurnKeepsMode(c: Copying, x: nat, i: nat)
    requires Shape(c.fs) && x < |c.fs.table| && i < MAX_LISTED
    requires i > DIRECT ==> c.fs.table[x].block[DIRECT] < |c.fs.blocks|
    requires CopyTurn(c, x, i).Some?
    ensures var d := CopyTurn(c, x, i).value;
      && d.fs.ibits == c.fs.ibits && |d.fs.table| == |c.fs.table| && d.fs.table[x].mode == c.fs.table[x].mode
      && forall y :: 0 <= y < |c.fs.table| && y != x ==> d.fs.table[y] == c.fs.table[y]
  {
  }

  lemma CopyMode(s: Fs, x: nat, data: seq<Byte>)
    requires Shape(s) && x < |s.table| && FileBlocks(|data|) < MAX_LISTED && CopyFile(s, x, data).Some?
    ensures var t := CopyFile(s, x, data).value;
      && t.ibits == s.ibits[x := true] && |t.table| == |s.table| && t.table[x].mode == S_IFREG
      && forall y :: 0 <= y < |s.table| && y != x ==> t.table[y] == s.table[y]
  {
    hide CopyLoop;
    LoopKeepsMode(Copying(BeginFile(s, x), data), x, FileBlocks(|data|) + 1);
  }

  /** Entries that name live inodes stay typed when a free inode alone changes. */
  lemma TypedStay(s: Fs, t: Fs, es: seq<Entry>, x: nat)
    requires AllTyped(s, es) && Shape(s) && x < |s.table| && !s.ibits[x]
    requires |t.table| == |s.table| && t.ibits == s.ibits[x := true]
    requires forall y :: 0 <= y < |s.table| && y != x ==> t.table[y].mode == s.table[y].mode
    ensures AllTyped(t, es)
  {
    forall k | 0 <= k < |es| ensures NamesTyped(t, es[k]) { assert NamesTyped(s, es[k]); }
  }

  /** After a copy every entry of the directory is still of its inode's type, the new one included, whether
      the name was new or not. */
  lemma CpTypes(s: Fs, b: Block, es: seq<Entry>, name: Name, data: seq<Byte>, t: Fs, c: Block) returns (fs: seq<Entry>)
    requires Shape(s) && Tiled(b, es) && AllTyped(s, es) && CpCommand(s, b, name, data) == Some((t, c))
    ensures Tiled(c, fs) && AllTyped(t, fs) && fs != [] && fs[|fs| - 1].name == name
    ensures FreeInode(s).Some? && fs[|fs| - 1].inode == FreeInode(s).value + 1
  {
    hide Tiled, CpInsert, CopyFile, Appended, AllTyped;
    var x := FreeInode(s).value;
    hide *;
    fs := CpListed(s, b, es, name, data, t, c, x);
    TypedStay(s, t, es, x);
    var k := |fs| - 2;
    AppendedTyped(t, es, k, name, x + 1, FT_REG_FILE);
  }

  /** The parts of the copy command. */
  lemma CpListed(s: Fs, b: Block, es: seq<Entry>, name: Name, data: seq<Byte>, t: Fs, c: Block, x: nat)
      returns (fs: seq<Entry>)
    requires Shape(s) && Tiled(b, es) && CpCommand(s, b, name, data) == Some((t, c)) && FreeInode(s) == Some(x)
    ensures 2 <= |fs| <= |es| + 1 && fs == Appended(es, |fs| - 2, name, x + 1, FT_REG_FILE) && Tiled(c, fs)
    ensures x < |s.table| && !s.ibits[x]
    ensures t.ibits == s.ibits[x := true] && |t.table| == |s.table| && t.table[x].mode == S_IFREG
    ensures forall y :: 0 <= y < |s.table| && y != x ==> t.table[y] == s.table[y]
  {
    assert es != [];
    hide Tiled, CpInsert, CopyFile, Tight, Offset;
    CpInsertExactly(b, es, name, x + 1);
    CopyMode(s, x, data);
    var k := if Unnamed(es, name, |es|) then |es| - 1 else 0;
    fs := Appended(es, k, name, x + 1, FT_REG_FILE);
  }

  lemma AppendedTyped(t: Fs, es: seq<Entry>, k: nat, name: Name, inode: nat, fileType: nat)
    requires AllTyped(t, es) && k < |es| && NamesTyped(t, Entry(inode, 0, fileType, name))
    ensures var fs := Appended(es, k, name, inode, fileType);
      AllTyped(t, fs) && |fs| == k + 2 && fs[k + 1].name == name && fs[k + 1].inode == inode
  {
    var fs := Appended(es, k, name, inode, fileType);
    forall i | 0 <= i < |fs| ensures NamesTyped(t, fs[i]) {
      if i <= k { assert NamesTyped(t, es[i]); }
    }
  }

  // ---- New directories ----

  /** After an mkdir that makes a directory every entry of the parent is of its inode's type, the new one
      included, and so are the new directory's own two entries. */
  lemma MkdirTypes(s: Fs, b: Block, es: seq<Entry>, name: Name, parent: nat, t: Fs, c: Block)
      returns (fs: seq<Entry>, x: nat, n: nat)
    requires Shape(s) && OneBlock(s, parent) && Tiled(b, es) && AllTyped(s, es)
    requires MkdirCommand(s, b, name, parent) == Some((t, c, true))
    ensures Tiled(c, fs) && AllTyped(t, fs)
    ensures n < |t.blocks| && OwnEntries(t.blocks[n], x + 1, parent + 1)
    ensures Live(s, parent) && 0x4000 <= s.table[parent].mode < 0x5000 ==>
      AllTyped(t, [Entry(x + 1, 12, FT_DIR, [46]), Entry(parent + 1, 1012, FT_DIR, [46, 46])])
    ensures HasRoomFor(es, name) ==> fs != [] && fs[|fs| - 1].name == name && fs[|fs| - 1].inode == x + 1
  {
    hide *;
    x, n := MkdirMakes(s, b, es, name, parent);
    fs := EnteredList(s, b, es, name, parent, t, c, x, n);
    TypedStay(s, t, es, x);
    if HasRoomFor(es, name) { AppendedTyped(t, es, |es| - 1, name, x + 1, FT_DIR); }
    OwnTyped(s, t, x, parent);
  }

  /** The parts of the mkdir command. */
  lemma EnteredList(s: Fs, b: Block, es: seq<Entry>, name: Name, parent: nat, t: Fs, c: Block, x: nat, n: nat)
      returns (fs: seq<Entry>)
    requires Shape(s) && Tiled(b, es) && Entered(s, b, es, name, parent, t, c, x, n)
    ensures es != [] && Tiled(c, fs)
    ensures fs == if HasRoomFor(es, name) then Appended(es, |es| - 1, name, x + 1, FT_DIR) else es
    ensures x < |s.table| == |s.ibits| && !s.ibits[x] && n < |t.blocks| && OwnEntries(t.blocks[n], x + 1, parent + 1)
    ensures NamesTyped(t, Entry(x + 1, 0, FT_DIR, name))
    ensures t.ibits == s.ibits[x := true] && |t.table| == |s.table| && t.table[x].mode == S_IFDIR
    ensures forall y :: 0 <= y < |s.table| && y != x ==> t.table[y].mode == s.table[y].mode
  {
    assert es != [];
    hide Tiled, Appended, HasRoomFor, OwnEntries, OneTaken;
    if HasRoomFor(es, name) {
      fs := Appended(es, |es| - 1, name, x + 1, FT_DIR);
    } else {
      fs := es;
      var u: Fs, m: nat :| Grown(s, u, m, parent, name, x) && Made(u, t, x, n, parent);
    }
  }

  lemma OwnTyped(s: Fs, t: Fs, x: nat, parent: nat)
    requires x < |s.table| == |t.table| == |s.ibits| && t.ibits == s.ibits[x := true] && t.table[x].mode == S_IFDIR
    requires forall y :: 0 <= y < |s.table| && y != x ==> t.table[y].mode == s.table[y].mode
    ensures Live(s, parent) && 0x4000 <= s.table[parent].mode < 0x5000 ==>
      AllTyped(t, [Entry(x + 1, 12, FT_DIR, [46]), Entry(parent + 1, 1012, FT_DIR, [46, 46])])
  {
  }

  // ---- Sessions ----

  /** A copy, or an mkdir that makes a directory. */
  ghost predicate Makes(s: Fs, b: Block, command: Command, t: Fs, d: Block) {
    && Executes(s, b, command, t, d)
    && match command
       case Cp(_, _) => true
       case MakeDir(name, parent) => MkdirCommand(s, b, name, parent) == Some((t, d, true))
       case _ => false
  }

  lemma MakesTyped(s: Fs, b: Block, es: seq<Entry>, command: Command, t: Fs, d: Block) returns (fs: seq<Entry>)
    requires Tiled(b, es) && AllTyped(s, es) && Makes(s, b, command, t, d)
    ensures Tiled(d, fs) && AllTyped(t, fs)
  {
    hide Tiled, AllTyped, CpCommand, MkdirCommand, OneBlock, Shape, FreeInode, OwnEntries;
    match command
    case Cp(name, data) => fs := CpTypes(s, b, es, name, data, t, d);
    case MakeDir(name, parent) =>
      var x, n;
      fs, x, n := MkdirTypes(s, b, es, name, parent, t, d);
  }

  /** Through any session of copies and new directories every entry of the directory stays of the type of
      the inode it names. */
  lemma {:induction false} TypedSession(images: seq<Fs>, blocks: seq<Block>, commands: seq<Command>, es: seq<Entry>,
      n: nat)
      returns (fs: seq<Entry>)
    requires |images| == |blocks| == |commands| + 1 && n <= |commands| && Tiled(blocks[0], es)
    requires AllTyped(images[0], es)
    requires forall i :: 0 <= i < |commands| ==> Makes(images[i], blocks[i], commands[i], images[i + 1], blocks[i + 1])
    ensures Tiled(blocks[n], fs) && AllTyped(images[n], fs)
  {
    hide Tiled, AllTyped, Makes;
    if n == 0 {
      fs := es;
    } else {
      var before := TypedSession(images, blocks, commands, es, n - 1);
      assert Makes(images[n - 1], blocks[n - 1], commands[n - 1], images[n - 1 + 1], blocks[n - 1 + 1]);
      fs := MakesTyped(images[n - 1], blocks[n - 1], before, commands[n - 1], images[n], blocks[n]);
    }
  }

  /** So the consistency tool's type fix does nothing at the entries of such a directory, wherever its
      block is. */
  lemma TypedNeedsNoFix(f: Fs, es: seq<Entry>, s: Repair.Image, slot: Repair.Slot)
    requires AllTyped(f, es) && Repair.Fixable(s, slot) && s.table == f.table && s.dirs[slot.n] == es
    ensures Repair.FixType(s, slot) == (s, 0)
  {
    hide Tiled, Repair.Mapped, Repair.FixType;
    assert NamesTyped(f, es[slot.k]);
    TypeFixIdles(s, slot);
  }
}
