/** The image as the tools mutate it: bitmap bytes, counters, inode table and blocks in place. */
module Ext2Disk {
  import opened Options
  import opened DirBlocks
  import opened DirEdits
  import opened DirWalks
  import opened ByteMaps
  import opened Ext2Model
  import opened Undelete
  import opened Mkdir

  class Disk {
    const bbm: array<Byte>
    const ibm: array<Byte>
    const table: array<Inode>
    const blocks: array<Block>
    const firstInode: nat             // s_first_ino
    var sbFreeBlocks: UInt
    var gdFreeBlocks: UShort
    var sbFreeInodes: UInt
    var gdFreeInodes: UShort

    /** The image is mapped, not made: its parts are given. */
    constructor (bbm: array<Byte>, ibm: array<Byte>, table: array<Inode>, blocks: array<Block>,
        firstInode: nat, c: Counters)
      ensures this.bbm == bbm && this.ibm == ibm && this.table == table && this.blocks == blocks
      ensures this.firstInode == firstInode && Sizes() ==> State().counters == c
    {
      this.bbm, this.ibm, this.table, this.blocks, this.firstInode := bbm, ibm, table, blocks, firstInode;
      sbFreeBlocks, gdFreeBlocks, sbFreeInodes, gdFreeInodes := c.sbBlocks, c.gdBlocks, c.sbInodes, c.gdInodes;
    }

    /** The bitmaps are as large as they must be and not the same memory. */
    ghost predicate Sizes() {
      && 1 <= blocks.Length < 0x1_0000_0000 && blocks.Length - 1 <= 8 * bbm.Length
      && firstInode < table.Length < 0x1_0000_0000 && table.Length <= 8 * ibm.Length
      && bbm != ibm
    }

    ghost function BlockBits(): seq<bool>
      reads bbm
      requires Sizes()
    {
      Bits(bbm[..])[..blocks.Length - 1]
    }

    ghost function InodeBits(): seq<bool>
      reads ibm
      requires Sizes()
    {
      Bits(ibm[..])[..table.Length]
    }

    ghost function State(): Fs
      reads this, bbm, ibm, table, blocks
      requires Sizes()
    {
      Fs(BlockBits(), InodeBits(), Counters(sbFreeBlocks, gdFreeBlocks, sbFreeInodes, gdFreeInodes),
         table[..], blocks[..], firstInode)
    }

    // ---- Bits and counters ----

    method MarkBlock(n: nat)
      requires Sizes() && 1 <= n <= blocks.Length - 1
      modifies bbm
      ensures BlockBits() == old(BlockBits())[n - 1 := true]
    {
      MakeValid(bbm, n - 1);
    }

    method UnmarkBlock(n: nat)
      requires Sizes() && 1 <= n <= blocks.Length - 1
      modifies bbm
      ensures BlockBits() == old(BlockBits())[n - 1 := false]
    {
      MakeInvalid(bbm, n - 1);
    }

    /** One block given back: its bit and the two counters. */
    method GiveBack(n: nat)
      requires Sizes() && 1 <= n <= blocks.Length - 1
      modifies bbm, this`sbFreeBlocks, this`gdFreeBlocks
      ensures State()
        == old(State()).(bbits := old(BlockBits())[n - 1 := false], counters := GiveBlock(old(State()).counters))
    {
      UnmarkBlock(n);
      sbFreeBlocks, gdFreeBlocks := More(sbFreeBlocks, 0x1_0000_0000), More(gdFreeBlocks, 0x1_0000);
    }

    method TakeBack(n: nat)
      requires Sizes() && 1 <= n <= blocks.Length - 1
      modifies bbm, this`sbFreeBlocks, this`gdFreeBlocks
      ensures State()
        == old(State()).(bbits := old(BlockBits())[n - 1 := true], counters := TakeBlock(old(State()).counters))
    {
      MarkBlock(n);
      sbFreeBlocks, gdFreeBlocks := Less(sbFreeBlocks, 0x1_0000_0000), Less(gdFreeBlocks, 0x1_0000);
    }

    method FreeInodeBit(x: nat)
      requires Sizes() && x < table.Length
      modifies ibm, this`sbFreeInodes, this`gdFreeInodes
      ensures State()
        == old(State()).(ibits := old(InodeBits())[x := false], counters := GiveInode(old(State()).counters))
    {
      MakeInvalid(ibm, x);
      sbFreeInodes, gdFreeInodes := More(sbFreeInodes, 0x1_0000_0000), More(gdFreeInodes, 0x1_0000);
    }

    method TakeInodeBit(x: nat)
      requires Sizes() && x < table.Length
      modifies ibm, this`sbFreeInodes, this`gdFreeInodes
      ensures State()
        == old(State()).(ibits := old(InodeBits())[x := true], counters := TakeInode(old(State()).counters))
    {
      MakeValid(ibm, x);
      sbFreeInodes, gdFreeInodes := Less(sbFreeInodes, 0x1_0000_0000), Less(gdFreeInodes, 0x1_0000);
    }

    // ---- Removing and restoring ----

    /** Number i of an inode's blocks, as the loops look it up. */
    method LookUp(x: nat, i: nat) returns (n: nat)
      requires Sizes() && x < table.Length && Walkable(State(), x) && i < table[x].sectors / 2
      ensures n == BlockNumber(State(), x, i)
    {
      if i <= 12 {
        n := table[x].block[i];
      } else {
        n := Pointer(blocks[table[x].block[DIRECT]], i - 13);
      }
    }

    /** `remove_file`, its directory part apart. */
    method RemoveFile(x: nat, fileType: nat, now: nat)
      requires Sizes() && CanRemove(State(), x)
      modifies this, bbm, ibm, table
      ensures State() == Ext2Model.RemoveFile(old(State()), x, fileType, now)
    {
      if fileType == FT_REG_FILE || fileType == FT_SYMLINK {
        if table[x].links > 1 && fileType != FT_SYMLINK {
          table[x] := table[x].(links := table[x].links - 1);
        } else {
          FreeBlocks(x);
          FreeInodeBit(x);
          table[x] := table[x].(dtime := now, links := Less(table[x].links, 0x1_0000));
        }
      }
    }

    /** Its loop over the blocks. */
    method FreeBlocks(x: nat)
      requires Sizes() && CanRemove(State(), x)
      modifies bbm, this`sbFreeBlocks, this`gdFreeBlocks
      ensures var s := old(State()); var list := BlockList(s, x);
        State() == s.(bbits := Marked(s.bbits, list, false), counters := GiveBlocks(s.counters, |list|))
    {
      ghost var s := State();
      var count := table[x].sectors / 2;
      for i := 0 to count
        invariant Freed(s, x, i)
      {
        FreeOne(x, i, s);
      }
      assert BlockList(s, x)[..count] == BlockList(s, x);
    }

    /** The first i blocks of the inode have been given back. */
    ghost predicate Freed(s: Fs, x: nat, i: nat)
      reads this, bbm, ibm, table, blocks
    {
      && Sizes() && CanRemove(s, x) && i <= |BlockList(s, x)|
      && State() == s.(bbits := Marked(s.bbits, BlockList(s, x)[..i], false), counters := GiveBlocks(s.counters, i))
    }

    method FreeOne(x: nat, i: nat, ghost s: Fs)
      requires Freed(s, x, i) && i < |BlockList(s, x)|
      modifies bbm, this`sbFreeBlocks, this`gdFreeBlocks
      ensures Freed(s, x, i + 1)
    {
      hide BlockNumber, Marked, Pointer, InRange;
      MarkedNext(s.bbits, BlockList(s, x), i, false);
      SameNumbers(s, State(), x, i);
      ListAt(s, x, i);
      var n := LookUp(x, i);
      GiveBack(n);
    }

    /** `check_all_inodes_invalid`. */
    method AllInvalid(x: nat) returns (r: bool)
      requires Sizes() && CanRemove(State(), x)
      ensures r == AllBits(BlockBits(), BlockList(State(), x), false)
    {
      hide Bits, BlockNumber, Walkable;
      ghost var list := BlockList(State(), x);
      var count := table[x].sectors / 2;
      for i := 0 to count
        invariant forall j :: 0 <= j < i ==> !BlockBits()[list[j] - 1]
      {
        var n := LookUp(x, i);
        assert list[i] == n;
        var valid := TestBit(bbm, n - 1);
        assert valid == BlockBits()[list[i] - 1];
        if valid {
          return false;
        }
      }
      r := true;
    }

    /** `restore_file`, its directory part apart; false when it exits. */
    method RestoreFile(x: nat, fileType: nat) returns (ok: bool)
      requires Sizes() && CanRemove(State(), x)
      modifies this, bbm, ibm, table
      ensures Ext2Model.RestoreFile(old(State()), x, fileType) == if ok then Some(State()) else None
      ensures !ok ==> State() == old(State())
    {
      ok := AllInvalid(x);
      if !ok || table[x].mode == FT_DIR {
        return false;
      }
      ghost var s := State();
      Revive(x, fileType);
      ghost var e := table[x];
      TakeInodeBit(x);
      table[x] := table[x].(links := More(table[x].links, 0x1_0000));
      assert table[..] == s.table[x := e.(links := More(e.links, 0x1_0000))];
    }

    /** Its branches on the type and the link count. */
    method Revive(x: nat, fileType: nat)
      requires Sizes() && CanRemove(State(), x)
      modifies bbm, table, this`sbFreeBlocks, this`gdFreeBlocks
      ensures var s := old(State()); var list := BlockList(s, x); var e := s.table[x];
        var linked := Removable(fileType) && e.links >= 1 && fileType != FT_SYMLINK;
        var marked := Removable(fileType) && !linked;
        State() == s.(bbits := if marked then Marked(s.bbits, list, true) else s.bbits,
                      counters := if marked then TakeBlocks(s.counters, |list|) else s.counters,
                      table := s.table[x := if linked then e.(links := More(e.links, 0x1_0000))
                                            else if marked && list != [] then e.(dtime := 0) else e])
    {
      ghost var s := State();
      if fileType == FT_REG_FILE || fileType == FT_SYMLINK {
        if table[x].links >= 1 && fileType != FT_SYMLINK {
          table[x] := table[x].(links := More(table[x].links, 0x1_0000));
        } else {
          MarkBlocks(x);
        }
      }
      assert s.table[x := s.table[x]] == s.table;
    }

    /** Its loop over the blocks, which also resets the deletion time. */
    method MarkBlocks(x: nat)
      requires Sizes() && CanRemove(State(), x)
      modifies bbm, table, this`sbFreeBlocks, this`gdFreeBlocks
      ensures var s := old(State()); var list := BlockList(s, x);
        State() == s.(bbits := Marked(s.bbits, list, true), counters := TakeBlocks(s.counters, |list|),
                      table := if list == [] then s.table else s.table[x := s.table[x].(dtime := 0)])
    {
      ghost var s := State();
      var count := table[x].sectors / 2;
      for i := 0 to count
        invariant Remarked(s, x, i)
      {
        MarkOne(x, i, s);
      }
      assert BlockList(s, x)[..count] == BlockList(s, x);
    }

    /** The first i blocks of the inode have been marked. */
    ghost predicate Remarked(s: Fs, x: nat, i: nat)
      reads this, bbm, ibm, table, blocks
    {
      && Sizes() && CanRemove(s, x) && i <= |BlockList(s, x)|
      && State() == s.(bbits := Marked(s.bbits, BlockList(s, x)[..i], true), counters := TakeBlocks(s.counters, i),
                       table := if i == 0 then s.table else s.table[x := s.table[x].(dtime := 0)])
    }

    method MarkOne(x: nat, i: nat, ghost s: Fs)
      requires Remarked(s, x, i) && i < |BlockList(s, x)|
      modifies bbm, table, this`sbFreeBlocks, this`gdFreeBlocks
      ensures Remarked(s, x, i + 1)
    {
      hide BlockNumber, Marked, Pointer, InRange;
      MarkedNext(s.bbits, BlockList(s, x), i, true);
      NumbersAfter(s, State(), x, i);
      ListAt(s, x, i);
      var n := LookUp(x, i);
      TakeBack(n);
      table[x] := table[x].(dtime := 0);
      assert table[..] == s.table[x := s.table[x].(dtime := 0)];
    }

    // ---- With the directory block ----

    /** `rm` on a directory of one block; false when there is no such file. */
    method RmCommand(dir: array<Byte>, name: Name, now: nat) returns (ok: bool)
      requires Sizes() && dir.Length == BLOCK_SIZE && dir != bbm && dir != ibm
      requires InBounds(State(), dir[..], RmSearch(dir[..], name, 0, 0))
      modifies this, bbm, ibm, table, dir
      ensures Undelete.RmCommand(old(State()), old(dir[..]), name, now) == if ok then Some((State(), dir[..])) else None
    {
      hide RmSearch;
      var r := FindVictim(dir, name);
      if !r.Found? {
        return false;
      }
      var e := EntryAt(dir[..], r.offset);
      Merge(dir, r.offset, r.lastSize);
      RemoveFile(e.inode - 1, e.fileType, now);
      ok := true;
    }

    /** `restore` on a directory of one block: whether a file is found, and whether it is restored.  When
        the restore gives up, the directory has been written all the same. */
    method RestoreCommand(dir: array<Byte>, name: Name) returns (found: bool, ok: bool)
      requires Sizes() && dir.Length == BLOCK_SIZE && dir != bbm && dir != ibm
      requires InBounds(State(), dir[..], RestoreSearch(dir[..], InodeBits(), name, 0, 0))
      modifies this, bbm, ibm, table, dir
      ensures Undelete.RestoreCommand(old(State()), old(dir[..]), name)
        == if found then Some((State(), dir[..], ok)) else None
    {
      hide RestoreSearch, Ext2Model.RestoreFile, Bits, BlockList, Walkable;
      var r := FindDeleted(dir, ibm, table.Length, name);
      if !r.Found? {
        return false, false;
      }
      var e := EntryAt(dir[..], r.offset);
      Put(dir, r.offset - r.lastSize + 4, r.lastSize);
      ok := RestoreFile(e.inode - 1, e.fileType);
      found := true;
    }

    // ---- Allocating ----

    /** `find_free_block_index`: the block number, or -1. */
    method AllocBlock() returns (n: int)
      requires Sizes()
      modifies bbm
      ensures Ext2Model.AllocBlock(old(State())) == if n == -1 then None else Some((State(), n))
      ensures if n == -1 then State() == old(State()) else 1 <= n < blocks.Length
    {
      ghost var was := BlockBits();
      PrefixClear(Bits(bbm[..]), blocks.Length - 1);
      n := FindFreeBlock(bbm, blocks.Length);
    }

    /** `find_invalid_indode_index`: the inode's index, or -1. */
    method FindInode() returns (x: int)
      requires Sizes()
      ensures FreeInode(State()) == if x == -1 then None else Some(x)
      ensures x != -1 ==> 0 <= x < table.Length
    {
      PrefixClearFrom(Bits(ibm[..]), firstInode, table.Length - 1, table.Length);
      var number := FindInvalidInode(ibm, firstInode + 1, table.Length);
      x := if number == -1 then -1 else number - 1;
    }

    /** `add_directory` but for the parent's directory block; false when it exits, for want of a block
        with the inode already taken. */
    method MakeDirectory(parent: nat) returns (ok: bool)
      requires Sizes() && Shape(State()) && parent < table.Length
      modifies this, bbm, ibm, table, blocks
      ensures (State(), ok) == Ext2Model.MakeDirectory(old(State()), parent)
    {
      var x := FindInode();
      if x == -1 {
        return false;
      }
      ok := TakeInodeFor(x, parent);
    }

    /** The same with the inode in hand. */
    method TakeInodeFor(x: nat, parent: nat) returns (ok: bool)
      requires Sizes() && Shape(State()) && parent < table.Length && FreeInode(State()) == Some(x)
      modifies this, bbm, ibm, table, blocks
      ensures (State(), ok) == Ext2Model.MakeDirectory(old(State()), parent)
    {
      BeginDirectory(x);
      var n := AllocBlock();
      if n == -1 {
        return false;
      }
      FinishDirectory(x, n, parent);
      ok := true;
    }

    /** Its part before the search for a block. */
    method BeginDirectory(x: nat)
      requires Sizes() && x < table.Length
      modifies ibm, table, this`sbFreeInodes, this`gdFreeInodes
      ensures State() == Ext2Model.BeginDirectory(old(State()), x)
    {
      ghost var s := State();
      TakeInodeBit(x);
      table[x] := table[x].(mode := S_IFDIR, size := BLOCK_SIZE, links := 2, sectors := 2, dtime := 0);
      assert table[..] == s.table[x := table[x]];
    }

    /** The rest of it, with the block in hand. */
    method FinishDirectory(x: nat, n: nat, parent: nat)
      requires Sizes() && Shape(State()) && x < table.Length && parent < table.Length && n < blocks.Length
      modifies this`sbFreeBlocks, this`gdFreeBlocks, table, blocks
      ensures State() == Ext2Model.FinishDirectory(old(State()), x, n, parent)
    {
      sbFreeBlocks, gdFreeBlocks := Less(sbFreeBlocks, 0x1_0000_0000), Less(gdFreeBlocks, 0x1_0000);
      assert State().table[x] == table[x];
      table[x] := table[x].(block := table[x].block[0 := n]);
      table[parent] := table[parent].(links := More(table[parent].links, 0x1_0000));
      blocks[n] := InitialEntries(blocks[n], x + 1, parent + 1);
    }

    /** `mkdir` on a directory of one block: whether the walk comes to an end, and whether a directory has
        been made.  The last entry is cut before the search for an inode. */
    method MkdirCommand(dir: array<Byte>, name: Name, parent: nat) returns (ends: bool, ok: bool)
      requires Sizes() && Shape(State()) && OneBlock(State(), parent) && dir.Length == BLOCK_SIZE
      requires dir != bbm && dir != ibm
      modifies this, bbm, ibm, table, blocks, dir
      ensures Mkdir.MkdirCommand(old(State()), old(dir[..]), name, parent)
        == if ends then Some((State(), dir[..], ok)) else None
    {
      hide LastSearch, Tight, Ext2Model.MakeDirectory, FreeInode, Mkdir.MkdirInNewBlock, Added, Bits;
      var place := FindLast(dir, name);
      match place {
        case Broken =>
          return false, false;
        case Exists =>
          return true, false;
        case Last(o) =>
          ends := true;
          if !NewFits(dir[..], o, name) {
            ok := MkdirInNewBlock(name, parent);
          } else {
            ok := MkdirHere(dir, o, name, parent);
          }
      }
    }

    /** `add_directory` with its writes to the parent's block. */
    method MkdirHere(dir: array<Byte>, last: nat, name: Name, parent: nat) returns (ok: bool)
      requires Sizes() && Shape(State()) && parent < table.Length && dir.Length == BLOCK_SIZE
      requires dir != bbm && dir != ibm
      requires Readable(dir[..], last) && NewFits(dir[..], last, name)
      modifies this, bbm, ibm, table, blocks, dir
      ensures var s, b := old(State()), old(dir[..]);
        match FreeInode(s)
        case None => !ok && State() == s && dir[..] == Trimmed(b, last)
        case Some(x) =>
          (State(), ok) == Ext2Model.MakeDirectory(s, parent) && dir[..] == Added(b, last, name, x + 1, FT_DIR)
    {
      hide Tight, Bits, Added, Trimmed, NewOffset, PutEntry;
      ghost var b := dir[..];
      var o := Trim(dir, last);
      var x := FindInode();
      if x == -1 {
        return false;
      }
      AddedInSteps(b, last, name, x + 1);
      WriteEntry(dir, o, Entry(x + 1, BLOCK_SIZE - last - U16(dir[..], last + 4), FT_DIR, name));
      ok := TakeInodeFor(x, parent);
    }

    /** A second block for the directory: its number, or -1. */
    method Grow(parent: nat) returns (n: int)
      requires Sizes() && Shape(State()) && OneBlock(State(), parent)
      modifies bbm, table, blocks
      ensures Mkdir.Grow(old(State()), parent) == (State(), if n == -1 then None else Some(n))
      ensures n == -1 || 0 <= n < blocks.Length
    {
      ghost var s := State();
      n := AllocBlock();
      if n == -1 {
        table[parent] := table[parent].(block := table[parent].block[1 := NO_BLOCK]);
        assert table[..] == s.table[parent := table[parent]];
      } else {
        table[parent] := table[parent].(block := table[parent].block[1 := n], sectors := table[parent].sectors + 2);
        blocks[n] := Put16(blocks[n], 4, 0);
        assert table[..] == s.table[parent := table[parent]];
      }
    }

    /** `add_directory` in that block. */
    method MkdirInNewBlock(name: Name, parent: nat) returns (ok: bool)
      requires Sizes() && Shape(State()) && OneBlock(State(), parent)
      modifies this, bbm, ibm, table, blocks
      ensures (State(), ok) == Mkdir.MkdirInNewBlock(old(State()), name, parent)
    {
      hide Added, Bits, Ext2Model.MakeDirectory, LowestClear;
      var n := Grow(parent);
      if n == -1 {
        return false;
      }
      var x := FindInode();
      if x == -1 {
        return false;
      }
      AddToNewBlock(blocks[n], name, x + 1, FT_DIR);
      blocks[n] := Added(blocks[n], 0, name, x + 1, FT_DIR);
      ok := TakeInodeFor(x, parent);
    }

    // ---- Copying a file in ----

    /** One turn of the copier's loop. */
    method CopyTurn(x: nat, i: nat, rest: seq<Byte>) returns (ok: bool, left: seq<Byte>)
      requires Sizes() && Shape(State()) && x < table.Length && i < MAX_LISTED
      requires i > DIRECT ==> table[x].block[DIRECT] < blocks.Length
      modifies this, bbm, table, blocks
      ensures Ext2Model.CopyTurn(Copying(old(State()), rest), x, i) == if ok then Some(Copying(State(), left)) else None
    {
      if i != DIRECT && rest == [] {
        return true, rest;
      }
      var n := AllocBlock();
      if n == -1 {
        return false, rest;
      }
      if i == DIRECT {
        table[x] := table[x].(block := table[x].block[i := n], sectors := table[x].sectors + 2);
        sbFreeBlocks, gdFreeBlocks := Less(sbFreeBlocks, 0x1_0000_0000), Less(gdFreeBlocks, 0x1_0000);
        return true, rest;
      }
      var chunk := Chunk(rest);
      Link(x, i, n);
      Store(x, n, chunk);
      ok, left := true, rest[|chunk|..];
    }

    method Link(x: nat, i: nat, n: nat)
      requires Sizes() && Shape(State()) && x < table.Length && i != DIRECT && i < MAX_LISTED
      requires i > DIRECT ==> table[x].block[DIRECT] < blocks.Length
      modifies table, blocks
      ensures State() == Linked(old(State()), x, i, n)
    {
      if i < DIRECT {
        table[x] := table[x].(block := table[x].block[i := n]);
      } else {
        var d := table[x].block[DIRECT];
        blocks[d] := Put32(blocks[d], 4 * (i - 13), n);
      }
    }

    method Store(x: nat, n: nat, chunk: seq<Byte>)
      requires Sizes() && x < table.Length && n < blocks.Length && |chunk| <= BLOCK_SIZE
      modifies this`sbFreeBlocks, this`gdFreeBlocks, table, blocks
      ensures State() == StoreChunk(old(State()), x, n, chunk)
    {
      sbFreeBlocks, gdFreeBlocks := Less(sbFreeBlocks, 0x1_0000_0000), Less(gdFreeBlocks, 0x1_0000);
      blocks[n] := Filled(blocks[n], chunk);
      table[x] := table[x].(size := table[x].size + |chunk|);
    }

    /** The copier's `main` on inode x + 1, which the search has found free; false when it reports that
        there is no space, or when the loop finds no free block. */
    method CopyFile(x: nat, data: seq<Byte>) returns (ok: bool)
      requires Sizes() && Shape(State()) && x < table.Length && FileBlocks(|data|) < MAX_LISTED
      modifies this, bbm, ibm, table, blocks
      ensures Ext2Model.CopyFile(old(State()), x, data) == if ok then Some(State()) else None
    {
      hide CopyLoop, EndFile, Bits;
      var used := FileBlocks(|data|) + 1;
      if used > sbFreeBlocks {
        return false;
      }
      Begin(x);
      ok := CopyAll(x, data, used);
      if ok {
        End(x, used);
      }
    }

    /** The copier's loop. */
    method CopyAll(x: nat, data: seq<Byte>, used: nat) returns (ok: bool)
      requires Sizes() && Shape(State()) && x < table.Length && used <= MAX_LISTED
      modifies this, bbm, table, blocks
      ensures var r := CopyLoop(Copying(old(State()), data), x, used);
        if ok then r.Some? && r.value.fs == State() else r == None
    {
      hide Ext2Model.CopyTurn;
      ghost var start := Copying(State(), data);
      var rest := data;
      for i := 0 to used
        invariant Copied(start, x, i, rest)
      {
        ok, rest := CopyOne(start, x, i, rest);
        if !ok {
          CopyStops(start, x, i, used);
          return;
        }
      }
      ok := true;
    }

    /** The loop stands after i turns. */
    ghost predicate Copied(start: Copying, x: nat, i: nat, rest: seq<Byte>)
      reads this, bbm, ibm, table, blocks
    {
      && Sizes() && Shape(State()) && Shape(start.fs) && x < table.Length && x < |start.fs.table| && i <= MAX_LISTED
      && CopyLoop(start, x, i) == Some(Copying(State(), rest))
    }

    method CopyOne(ghost start: Copying, x: nat, i: nat, rest: seq<Byte>) returns (ok: bool, left: seq<Byte>)
      requires Copied(start, x, i, rest) && i < MAX_LISTED
      modifies this, bbm, table, blocks
      ensures if ok then Copied(start, x, i + 1, left) else CopyLoop(start, x, i + 1) == None
    {
      NextTurn(start, x, i, CopyLoop(start, x, i).value);
      ok, left := CopyTurn(x, i, rest);
    }

    method Begin(x: nat)
      requires Sizes() && x < table.Length
      modifies this, ibm, table
      ensures State() == BeginFile(old(State()), x)
    {
      ghost var s := State();
      TakeInodeBit(x);
      table[x] := table[x].(mode := S_IFREG, size := BLOCK_SIZE, links := 0, sectors := 0, dtime := 0);
      table[x] := table[x].(size := 0);
      assert table[..] == s.table[x := table[x]];
    }

    method End(x: nat, used: nat)
      requires Sizes() && x < table.Length && used > 0
      modifies table
      ensures State() == EndFile(old(State()), x, used)
    {
      table[x] := table[x].(sectors := table[x].sectors + (used - 1) * 2);
      table[x] := table[x].(links := More(table[x].links, 0x1_0000));
    }
  }

  /** What a walk has found lies within the block, and names an inode whose blocks have bits. */
  predicate InBounds(s: Fs, b: Block, r: Outcome) {
    r.Found? ==>
      r.lastSize <= r.offset && Readable(b, r.offset) && EntryAt(b, r.offset).inode > 0
      && CanRemove(s, EntryAt(b, r.offset).inode - 1)
  }

  lemma MarkedNext(bits: seq<bool>, list: seq<nat>, i: nat, v: bool)
    requires InRange(list, bits) && i < |list|
    ensures 1 <= list[i] <= |bits| && InRange(list[..i], bits) && InRange(list[..i + 1], bits)
    ensures Marked(bits, list[..i + 1], v) == Marked(bits, list[..i], v)[list[i] - 1 := v]
  {
    assert list[..i + 1][..i] == list[..i];
  }

  lemma ListAt(s: Fs, x: nat, i: nat)
    requires CanRemove(s, x) && i < |BlockList(s, x)|
    ensures BlockList(s, x)[i] == BlockNumber(s, x, i)
  {
  }

  /** Once a turn has failed the loop has no result. */
  lemma {:induction false} CopyStops(start: Copying, x: nat, i: nat, n: nat)
    requires Shape(start.fs) && x < |start.fs.table| && i < n <= MAX_LISTED && CopyLoop(start, x, i + 1) == None
    ensures CopyLoop(start, x, n) == None
    decreases n
  {
    hide Ext2Model.CopyTurn;
    if n > i + 1 { CopyStops(start, x, i, n - 1); }
  }

  lemma PrefixClear(bits: seq<bool>, m: nat)
    requires m <= |bits|
    ensures LowestClear(bits[..m], 0, m) == LowestClear(bits, 0, m)
  {
    LowestClearIs(bits[..m], 0, m, LowestClear(bits, 0, m));
  }

  lemma PrefixClearFrom(bits: seq<bool>, from: nat, end: nat, m: nat)
    requires from <= end <= m <= |bits|
    ensures LowestClear(bits[..m], from, end) == LowestClear(bits, from, end)
  {
    LowestClearIs(bits[..m], from, end, LowestClear(bits, from, end));
  }

  lemma NumbersAfter(s: Fs, t: Fs, x: nat, i: nat)
    requires x < |s.table| && Walkable(s, x) && i < s.table[x].sectors / 2
    requires t.table == s.table || t.table == s.table[x := s.table[x].(dtime := 0)]
    requires t.blocks == s.blocks
    ensures Walkable(t, x) && BlockNumber(t, x, i) == BlockNumber(s, x, i)
  {
  }

  /** Bits and counters do not matter for the list of blocks. */
  lemma SameNumbers(s: Fs, t: Fs, x: nat, i: nat)
    requires x < |s.table| && Walkable(s, x) && i < s.table[x].sectors / 2
    requires t.table == s.table && t.blocks == s.blocks
    ensures Walkable(t, x) && BlockNumber(t, x, i) == BlockNumber(s, x, i)
  {
  }
}
