/** Three runs of the tools from a small consistent image that go wrong: a restore that marks a block twice,
    the removal of a name that a failed restore has brought back, and a directory cut short by an mkdir that
    gives up. */
module FailingRuns {
  import opened Options
  import opened Counting
  import opened DirBlocks
  import opened DirEdits
  import opened DirWalks
  import opened Ext2Model
  import opened Undelete
  import opened CopyIn
  import opened CopyRemove
  import opened Mkdir
  import opened AllocationRuns
  import opened CommandRuns
  import opened SmallImage

  // ---- A block marked twice: the image ----

  function Fourteen(): seq<Byte> {
    seq(14 * BLOCK_SIZE, _ => 0)
  }

  /** 13 blocks, the last of which begins with the number 16, twice. */
  function Thirteen(): seq<Byte> {
    seq(13 * BLOCK_SIZE, i => if i == 12 * BLOCK_SIZE || i == 12 * BLOCK_SIZE + 4 then 16 else 0)
  }

  /** Y in inode 3 and block 2; what follows is free. */
  ghost predicate OnlyY(s: Fs) {
    && Inv(s) && |s.bbits| == 17 && Upto(s.bbits, 2) && s.ibits == [true, true, true, false, false] && s.firstInode == 2
    && HasFile(s, 2, [2])
  }

  lemma CopyY() returns (s: Fs, t: Fs)
    ensures s == Start(16) && Inv(s) && Copied(s, 2, Small(), t) && Steps(s, t) && OnlyY(t)
  {
    hide Inv, Copied, HasFile, Start;
    s, t := CopyFirst(16);
  }

  lemma CopyA(s: Fs) returns (t: Fs, list: seq<nat>)
    requires OnlyY(s)
    ensures Copied(s, 3, Fourteen(), t)
    ensures Steps(s, t) && Inv(t) && CopiedTo(s, 3, Fourteen(), t, list) && Ascends(list, 2) && HasFile(t, 3, list)
    ensures |list| == 15 && t.table[2] == s.table[2]
  {
    UptoCount(s.bbits, 2);
    t, list := CopyStep(s, 3, Fourteen(), 2);
  }

  /** What the deleted file's inode still says: 15 blocks, of which 3 to 15 are listed in the inode. */
  ghost predicate TraceOfA(s: Fs) {
    && |s.table| > 3 && |s.table[3].block| == 15 && s.table[3].sectors == 30 && s.table[3].links == 0
    && s.table[3].mode == S_IFREG && forall j :: 0 <= j <= DIRECT ==> s.table[3].block[j] == 3 + j
  }

  lemma RemoveA(s: Fs, t: Fs, list: seq<nat>) returns (u: Fs)
    requires OnlyY(s) && Inv(t) && CopiedTo(s, 3, Fourteen(), t, list) && HasFile(t, 3, list)
    requires Ascends(list, 2) && |list| == 15 && t.table[2] == s.table[2]
    ensures Removed(t, 3, u) && Steps(t, u) && OnlyY(u) && TraceOfA(u)
  {
    u := RemoveStep(t, 3, list);
    RemovedAgain(s, 3, Fourteen(), t, list, 1);
    FileStays(s, u, 2, [2]);
  }

  lemma RemoveY(s: Fs) returns (t: Fs)
    requires OnlyY(s) && TraceOfA(s)
    ensures Removed(s, 2, t) && Steps(s, t) && Inv(t) && TraceOfA(t) && |t.bbits| == 17 && Upto(t.bbits, 1)
    ensures t.ibits == [true, true, false, false, false] && t.firstInode == 2
  {
    t := RemoveStep(s, 2, [2]);
    RunAt(s.bbits, [2], 1, false);
  }

  /** Block 15, once the indirect block of the deleted file, now begins with the number 16, twice. */
  predicate Twice16(blocks: seq<Block>) {
    && |blocks| == 18 && blocks[15][0] == 16 && blocks[15][4] == 16
    && forall i :: 0 <= i < 8 && i != 0 && i != 4 ==> blocks[15][i] == 0
  }

  lemma CopyC(s: Fs) returns (t: Fs, list: seq<nat>)
    requires Inv(s) && TraceOfA(s) && |s.bbits| == 17 && Upto(s.bbits, 1)
    requires s.ibits == [true, true, false, false, false] && s.firstInode == 2
    ensures Copied(s, 2, Thirteen(), t) && t.firstInode == 2
    ensures Steps(s, t) && Inv(t) && CopiedTo(s, 2, Thirteen(), t, list) && Ascends(list, 1) && HasFile(t, 2, list)
    ensures |list| == 14 && t.table[3] == s.table[3] && t.ibits == [true, true, true, false, false]
    ensures |t.bbits| == 17 && Upto(t.bbits, 15) && Twice16(t.blocks)
  {
    UptoCount(s.bbits, 1);
    t, list := CopyStep(s, 2, Thirteen(), 1);
    RunAt(s.bbits, list, 1, true);
    LastBlock(s, t, list);
  }

  lemma LastBlock(s: Fs, t: Fs, list: seq<nat>)
    requires CopiedTo(s, 2, Thirteen(), t, list) && Ascends(list, 1) && |list| == 14 && |t.blocks| == 18
    ensures Twice16(t.blocks)
  {
    assert list[13] == 15;
    assert Stored(t.blocks, 15, Thirteen(), 13);
    assert Pos(|Thirteen()|, 13) == 12 * BLOCK_SIZE && Pos(|Thirteen()|, 14) == 13 * BLOCK_SIZE;
    forall i | 0 <= i < 8 ensures t.blocks[15][i] == Thirteen()[12 * BLOCK_SIZE + i] {
      assert t.blocks[15][..BLOCK_SIZE][i] == Thirteen()[12 * BLOCK_SIZE..13 * BLOCK_SIZE][i];
    }
  }

  /** A's trace and the two numbers are there, and all files are gone. */
  ghost predicate Emptied(s: Fs) {
    && Inv(s) && TraceOfA(s) && Twice16(s.blocks) && |s.bbits| == 17 && Upto(s.bbits, 1)
    && s.ibits == [true, true, false, false, false] && s.firstInode == 2
  }

  lemma RemoveC(s: Fs, list: seq<nat>) returns (t: Fs)
    requires Inv(s) && TraceOfA(s) && HasFile(s, 2, list) && Ascends(list, 1) && |list| == 14 && Twice16(s.blocks)
    requires |s.bbits| == 17 && Upto(s.bbits, 15) && s.ibits == [true, true, true, false, false]
    requires s.firstInode == 2
    ensures Removed(s, 2, t) && Steps(s, t) && Emptied(t)
  {
    t := RemoveStep(s, 2, list);
    RunAt(s.bbits, list, 1, false);
  }

  /** The same with an empty file. */
  ghost predicate ZThere(s: Fs) {
    && Inv(s) && TraceOfA(s) && Twice16(s.blocks) && |s.bbits| == 17 && Upto(s.bbits, 1)
    && s.ibits == [true, true, true, false, false]
  }

  /** An empty file takes an inode and no block. */
  lemma CopyZ(s: Fs) returns (t: Fs)
    requires Emptied(s)
    ensures Copied(s, 2, [], t) && Steps(s, t) && ZThere(t)
  {
    UptoCount(s.bbits, 1);
    var list;
    t, list := CopyStep(s, 2, [], 1);
    assert list == [];
    KeepsTrace(s, t);
    NothingStored(s, t);
  }

  lemma NothingStored(s: Fs, t: Fs)
    requires CopiedTo(s, 2, [], t, []) && Twice16(s.blocks)
    ensures Twice16(t.blocks)
  {
    assert t.blocks[15] == s.blocks[15];
  }

  /** The deleted file now lists blocks 3 to 16, and 16 once more. */
  lemma ListOfA(s: Fs)
    requires Shape(s) && TraceOfA(s) && Twice16(s.blocks) && |s.bbits| == 17
    ensures CanRemove(s, 3) && |BlockList(s, 3)| == 15 && BlockList(s, 3)[14] == 16
    ensures Ascends(BlockList(s, 3)[..14], 2)
  {
    assert Walkable(s, 3);
    var list := BlockList(s, 3);
    assert Pointer(s.blocks[15], 0) == 16 && Pointer(s.blocks[15], 1) == 16;
    forall i | 0 <= i < 15 ensures list[i] == if i == 14 then 16 else 3 + i { }
  }

  /** Such a list marks 14 blocks and takes 15 from the counters. */
  lemma RestoreA(s: Fs) returns (t: Fs)
    requires Inv(s) && TraceOfA(s) && Twice16(s.blocks) && |s.bbits| == 17 && Upto(s.bbits, 1)
    requires |s.ibits| == 5 && !s.ibits[3]
    ensures CanRemove(s, 3) && !s.ibits[3] && s.table[3].links == 0
    ensures RestoreFile(s, 3, FT_REG_FILE) == Some(t) && !Inv(t)
    ensures Count(t.bbits, false) == 2 && t.counters.sbBlocks == t.counters.gdBlocks == 1
  {
    ListOfA(s);
    var list := BlockList(s, 3);
    RestoredA(s, list);
    t := RestoreFile(s, 3, FT_REG_FILE).value;
    assert list[13] == list[..14][13];
    RestoreKeepsExactly(s, 3, FT_REG_FILE);
    UptoCount(s.bbits, 1);
    TakeCount(s.counters, 15);
    TwiceMarked(s.bbits, list);
  }

  lemma RestoredA(s: Fs, list: seq<nat>)
    requires CanRemove(s, 3) && BlockList(s, 3) == list && TraceOfA(s) && |s.bbits| == 17 && Upto(s.bbits, 1)
    requires |list| == 15 && Ascends(list[..14], 2) && list[14] == 16
    ensures RestoreFile(s, 3, FT_REG_FILE).Some?
    ensures RestoreFile(s, 3, FT_REG_FILE).value.bbits == Marked(s.bbits, list, true)
    ensures RestoreFile(s, 3, FT_REG_FILE).value.counters == TakeInode(TakeBlocks(s.counters, 15))
  {
    forall i | 0 <= i < |list| ensures !s.bbits[list[i] - 1] { if i < 14 { assert list[i] == list[..14][i]; } }
  }

  lemma TwiceMarked(bits: seq<bool>, list: seq<nat>)
    requires |bits| == 17 && Upto(bits, 1) && InRange(list, bits) && |list| == 15 && Ascends(list[..14], 2)
    requires list[14] == 16
    ensures Count(Marked(bits, list, true), false) == 2
  {
    RunAt(bits, list[..14], 2, true);
    var once := Marked(bits, list[..14], true);
    assert Marked(bits, list, true) == once[15 := true] == once;
    assert once == [true, false] + once[2..16] + [false];
    AllSetNoneClear(once[2..16]);
    CountAppend([true, false] + once[2..16], [false], false);
    CountAppend([true, false], once[2..16], false);
    assert [true, false] == [true] + [false];
    CountAppend([true], [false], false);
  }

  lemma KeepsTrace(s: Fs, t: Fs)
    requires TraceOfA(s) && |t.table| > 3 && t.table[3] == s.table[3]
    ensures TraceOfA(t)
  {
  }

  // ---- A block marked twice: the run ----

  /** The images that the commands lead through. */
  ghost predicate FirstImages(s: seq<Fs>) {
    && |s| == 8 && s[0] == Start(16) && Inv(s[0]) && Inv(s[2]) && Inv(s[3]) && Inv(s[5])
    && Copied(s[0], 2, Small(), s[1]) && Copied(s[1], 3, Fourteen(), s[2])
    && Removed(s[2], 3, s[3]) && Removed(s[3], 2, s[4])
    && Copied(s[4], 2, Thirteen(), s[5]) && Removed(s[5], 2, s[6]) && Copied(s[6], 2, [], s[7])
    && ZThere(s[7])
  }

  lemma ImagesOfFirst() returns (images: seq<Fs>)
    ensures FirstImages(images) && Run(images)
  {
    hide Inv, Steps, OnlyY, TraceOfA, CopiedTo, HasFile, Twice16, Upto, Copied, Removed, CanRemove, Ascends,
      Emptied, ZThere, Start;
    var s0, s1 := CopyY();
    var s2, listA := CopyA(s1);
    var s3 := RemoveA(s1, s2, listA);
    var s4 := RemoveY(s3);
    var s5, listC := CopyC(s4);
    KeepsTrace(s4, s5);
    var s6 := RemoveC(s5, listC);
    var s7 := CopyZ(s6);
    images := [s0, s1, s2, s3, s4, s5, s6, s7];
    assert Steps(images[0], images[1]) && Steps(images[1], images[2]) && Steps(images[2], images[3]);
    assert Steps(images[3], images[4]) && Steps(images[4], images[5]) && Steps(images[5], images[6]);
    assert Steps(images[6], images[7]);
  }

  /** And the directory blocks. */
  ghost predicate FirstBlocks(d: seq<Block>) {
    && |d| == 8 && d[0] == InitialEntries(Zeroes(), 2, 2)
    && CpInsert(d[0], Y, 3) == Some(d[1]) && CpInsert(d[1], A, 4) == Some(d[2])
    && Deletes(d[2], A, 4, d[3]) && Deletes(d[3], Y, 3, d[4])
    && CpInsert(d[4], C, 3) == Some(d[5]) && Deletes(d[5], C, 3, d[6]) && CpInsert(d[6], Z, 3) == Some(d[7])
    && Tiled(d[7], [Dot(), Up(12), File(3, 1000, Z)]) && Laid(d[7], 36, BLOCK_SIZE, [File(4, 988, A)])
  }

  lemma BlocksOfFirst() returns (blocks: seq<Block>)
    ensures FirstBlocks(blocks)
  {
    hide Tiled, CpInsert, Deletes, Laid, Tight, Offset, InitialEntries;
    var start, y, both := TwoNames();
    Offsets(BothThere());
    var onlyY := EntryMerged(both, BothThere(), 3, 36);
    assert MergedEntries(BothThere(), 3) == [Dot(), Up(12), File(3, 1000, Y)];
    var none := OnlyName(onlyY, Y);
    var c := FirstName(none, C);
    var gone := OnlyName(c, C);
    var z := FirstName(gone, Z);
    LastKept(both, z, BothThere());
    blocks := [start, y, both, onlyY, none, c, gone, z];
  }

  function FirstCommands(): (c: seq<Command>)
    ensures |c| == 8 && c[7] == Command.Restore(A)
  {
    [Cp(Y, Small()), Cp(A, Fourteen()), Rm(A, 1), Rm(Y, 1), Cp(C, Thirteen()), Rm(C, 1), Cp(Z, []), Command.Restore(A)]
  }

  lemma FirstExecutes(s: seq<Fs>, d: seq<Block>)
    requires FirstImages(s) && FirstBlocks(d)
    ensures |s| == |d| == 8
    ensures forall i :: 0 <= i < 7 ==> Executes(s[i], d[i], FirstCommands()[i], s[i + 1], d[i + 1])
  {
    hide Inv, Copied, Removed, Deletes, CpInsert, Executes, Tiled, Laid, TraceOfA, Twice16, Upto, Start, InitialEntries;
    hide Small, Fourteen, Thirteen;
    CpExecutes(s[0], d[0], Y, Small(), 2, s[1], d[1]);
    CpExecutes(s[1], d[1], A, Fourteen(), 3, s[2], d[2]);
    RmExecutes(s[2], d[2], A, 3, s[3], d[3]);
    RmExecutes(s[3], d[3], Y, 2, s[4], d[4]);
    CpExecutes(s[4], d[4], C, Thirteen(), 2, s[5], d[5]);
    RmExecutes(s[5], d[5], C, 2, s[6], d[6]);
    CpExecutes(s[6], d[6], Z, [], 2, s[7], d[7]);
  }

  /** What the last command needs. */
  ghost predicate FirstFacts(s: seq<Fs>, d: seq<Block>) {
    && |s| == |d| == 8 && s[0] == Start(16) && d[0] == InitialEntries(Zeroes(), 2, 2) && ZThere(s[7])
    && Tiled(d[7], [Dot(), Up(12), File(3, 1000, Z)]) && Laid(d[7], 36, BLOCK_SIZE, [File(4, 988, A)])
  }

  lemma FirstOnly(s: seq<Fs>, d: seq<Block>)
    requires FirstImages(s) && FirstBlocks(d)
    ensures FirstFacts(s, d)
  {
    hide Inv, Copied, Removed, Deletes, CpInsert, Tiled, Laid, ZThere, Start, InitialEntries;
  }

  lemma RestoreExecutes(s: Fs, b: Block, name: Name, t: Fs, c: Block, ok: bool)
    requires Shape(s) && RestoreCommand(s, b, name) == Some((t, c, ok))
    ensures Executes(s, b, Command.Restore(name), t, c)
  {
  }

  /** A small file Y, a file A of 14 blocks, both removed; a file of 13 blocks whose last one overwrites A's
      indirect block with two equal numbers, removed; an empty file, behind whose entry A's lies dead; A
      restored.  Every block on A's list is free and its link count is 0, and yet block 16 is marked twice:
      afterwards two blocks are free, and the counters say one. */
  lemma RestoreMarksTwice() returns (images: seq<Fs>, blocks: seq<Block>)
    ensures |images| == |blocks| == 9 && images[0] == Start(16) && blocks[0] == InitialEntries(Zeroes(), 2, 2)
    ensures Session(images, blocks, FirstCommands()) && Run(images[..8])
    ensures CanRemove(images[7], 3) && !images[7].ibits[3] && images[7].table[3].links == 0
    ensures RestoreCommand(images[7], blocks[7], A) == Some((images[8], blocks[8], true))
    ensures !Inv(images[8]) && Count(images[8].bbits, false) == 2
    ensures images[8].counters.sbBlocks == images[8].counters.gdBlocks == 1
  {
    hide Inv, Executes, FirstImages, FirstBlocks, CanRemove, RestoreCommand, Start, InitialEntries, FirstCommands,
      ZThere, Tiled, Laid;
    var s := ImagesOfFirst();
    var d := BlocksOfFirst();
    FirstExecutes(s, d);
    assert FirstFacts(s, d) by { FirstOnly(s, d); }
    var t, c := LastRestore(s[7], d[7]);
    images, blocks := s + [t], d + [c];
    RestoreExecutes(s[7], d[7], A, t, c, true);
    assert images[..8] == s;
  }

  lemma LastRestore(s: Fs, b: Block) returns (t: Fs, c: Block)
    requires ZThere(s) && Tiled(b, [Dot(), Up(12), File(3, 1000, Z)]) && Laid(b, 36, BLOCK_SIZE, [File(4, 988, A)])
    ensures Shape(s) && CanRemove(s, 3) && !s.ibits[3] && s.table[3].links == 0
    ensures RestoreCommand(s, b, A) == Some((t, c, true))
    ensures !Inv(t) && Count(t.bbits, false) == 2 && t.counters.sbBlocks == t.counters.gdBlocks == 1
  {
    assert Shape(s);
    hide Inv, RestoreCommand, RestoreFile, CanRemove, Tiled, Laid, Twice16, Upto, LiesDead, Shown, Shape;
    t := RestoreA(s);
    LiesThere(s, b, Z);
    c := RestoreFinds(s, b, [Dot(), Up(12), File(3, 1000, Z)], [[], []], 2, [File(4, 988, A)], 0, A);
  }

  // ---- A removed name that comes back: the image ----

  /** Two blocks of data, the second one begun. */
  function Larger(): seq<Byte> {
    seq(BLOCK_SIZE + 1, _ => 0)
  }

  /** B in inode 3 and blocks 2 and 3; the dead A in inode 4 and block 3. */
  ghost predicate BAlive(s: Fs) {
    && Inv(s) && s.ibits == [true, true, true, false, false] && HasFile(s, 2, [2, 3])
    && CanRemove(s, 3) && BlockList(s, 3) == [3] && s.table[3].links == 0 && s.table[3].mode == S_IFREG
  }

  /** Two small files, in inodes 3 and 4 and blocks 2 and 3. */
  ghost predicate TwoFiles(s: Fs) {
    && Inv(s) && |s.bbits| == 4 && Upto(s.bbits, 3) && s.ibits == [true, true, true, true, false]
    && s.firstInode == 2 && HasFile(s, 2, [2]) && HasFile(s, 3, [3]) && s.table[3].mode == S_IFREG && OneBlock(s, 1)
  }

  lemma ImageBoth() returns (start: Fs, y: Fs, both: Fs)
    ensures start == Start(3) && Inv(start) && Inv(y) && Copied(start, 2, Small(), y) && Copied(y, 3, Small(), both)
    ensures TwoFiles(both)
  {
    hide Inv, Copied, CanRemove, BlockList;
    start, y := CopyFirst(3);
    var list;
    SmallReady(y);
    both, list := CopyStep(y, 3, Small(), 2);
    assert list == [3];
    RunAt(y.bbits, list, 2, true);
    OtherStays(y, both, 3, 2, [2], Small(), list);
  }

  lemma SmallReady(s: Fs)
    requires Inv(s) && |s.bbits| == 4 && Upto(s.bbits, 2) && s.ibits == [true, true, true, false, false]
    requires s.firstInode == 2
    ensures Ready(s, 3, Small(), 2)
  {
    UptoCount(s.bbits, 2);
  }

  lemma OtherStays(s: Fs, t: Fs, x: nat, y: nat, file: seq<nat>, data: seq<Byte>, list: seq<nat>)
    requires Inv(s) && Inv(t) && CopiedTo(s, x, data, t, list) && x != y && HasFile(s, y, file) && |file| <= 13
    ensures HasFile(t, y, file)
  {
    FileStays(s, t, y, file);
  }

  /** Both removed. */
  lemma ImageNone(both: Fs) returns (a: Fs, none: Fs)
    requires TwoFiles(both)
    ensures Inv(a) && Removed(both, 2, a) && Removed(a, 3, none) && NoneLeft(none)
  {
    hide Inv, Copied, CanRemove, BlockList, RemoveFile;
    a := RemoveStep(both, 2, [2]);
    RunAt(both.bbits, [2], 1, false);
    KeptFile(both, a);
    none := RemoveStep(a, 3, [3]);
    RunAt(a.bbits, [3], 2, false);
    FileDies(a, none);
  }

  lemma KeptFile(s: Fs, t: Fs)
    requires Inv(s) && Inv(t) && HasFile(s, 3, [3]) && |t.table| == |s.table| && t.table == s.table[2 := t.table[2]]
    requires t.blocks == s.blocks
    requires t.ibits == s.ibits[2 := false] && |t.bbits| == |s.bbits|
    ensures HasFile(t, 3, [3])
  {
    FileStays(s, t, 3, [3]);
  }

  /** What the deleted file's inode still says. */
  ghost predicate DeadFile(s: Fs) {
    && |s.table| > 3 && |s.table[3].block| == 15 && s.table[3].sectors / 2 == 1 && s.table[3].block[0] == 3
    && s.table[3].links == 0 && s.table[3].mode == S_IFREG
  }

  lemma FileDies(s: Fs, t: Fs)
    requires HasFile(s, 3, [3]) && s.table[3].mode == S_IFREG
    requires t.table == s.table[3 := s.table[3].(dtime := 1, links := 0)]
    ensures DeadFile(t)
  {
    assert BlockList(s, 3)[0] == 3 && |BlockList(s, 3)| == 1;
  }

  ghost predicate NoneLeft(s: Fs) {
    && Inv(s) && |s.bbits| == 4 && Upto(s.bbits, 1) && s.ibits == [true, true, false, false, false] && s.firstInode == 2
    && DeadFile(s)
  }

  lemma ImageB(none: Fs) returns (b: Fs)
    requires NoneLeft(none)
    ensures Copied(none, 2, Larger(), b) && BAlive(b)
  {
    hide Inv, Copied, CanRemove, BlockList, CopiedTo;
    var list;
    LargerReady(none);
    b, list := CopyStep(none, 2, Larger(), 1);
    assert list == [2, 3] by { CopiedSize(none, b, list); }
    CopiedBits(none, b, list);
    DeadList(b);
  }

  lemma LargerReady(s: Fs)
    requires Inv(s) && |s.bbits| == 4 && Upto(s.bbits, 1) && s.ibits == [true, true, false, false, false]
    requires s.firstInode == 2
    ensures Ready(s, 2, Larger(), 1)
  {
    UptoCount(s.bbits, 1);
  }

  lemma CopiedSize(s: Fs, t: Fs, list: seq<nat>)
    requires CopiedTo(s, 2, Larger(), t, list)
    ensures |list| == 2
  {
  }

  lemma CopiedBits(s: Fs, t: Fs, list: seq<nat>)
    requires CopiedTo(s, 2, Larger(), t, list) && DeadFile(s) && s.ibits == [true, true, false, false, false]
    requires |s.bbits| == 4
    ensures t.ibits == [true, true, true, false, false] && DeadFile(t) && |t.bbits| == 4 && |t.table| == |s.table|
    ensures t.table[2].links == 1
  {
  }

  lemma DeadList(s: Fs)
    requires Inv(s) && DeadFile(s) && |s.bbits| == 4
    ensures CanRemove(s, 3) && BlockList(s, 3) == [3]
  {
    assert Walkable(s, 3);
    assert BlockList(s, 3) == [3];
  }

  // ---- A removed name that comes back: the run ----

  ghost predicate SecondImages(s: seq<Fs>) {
    && |s| == 6 && s[0] == Start(3) && (forall i :: 0 <= i < 6 ==> Inv(s[i]))
    && Copied(s[0], 2, Small(), s[1]) && Copied(s[1], 3, Small(), s[2])
    && Removed(s[2], 2, s[3]) && Removed(s[3], 3, s[4]) && Copied(s[4], 2, Larger(), s[5]) && BAlive(s[5])
  }

  lemma ImagesOfSecond() returns (images: seq<Fs>)
    ensures SecondImages(images)
  {
    hide Inv, Copied, Removed, Upto, HasFile, CanRemove, BlockList, DeadFile, Start;
    var start, y, both := ImageBoth();
    var a, none := ImageNone(both);
    var b := ImageB(none);
    images := [start, y, both, a, none, b];
  }

  ghost predicate SecondBlocks(d: seq<Block>) {
    && |d| == 6 && d[0] == InitialEntries(Zeroes(), 2, 2)
    && CpInsert(d[0], Y, 3) == Some(d[1]) && CpInsert(d[1], A, 4) == Some(d[2])
    && Deletes(d[2], Y, 3, d[3]) && Deletes(d[3], A, 4, d[4]) && CpInsert(d[4], B, 3) == Some(d[5])
    && Tiled(d[5], [Dot(), Up(12), File(3, 1000, B)]) && Laid(d[5], 36, BLOCK_SIZE, [File(4, 988, A)])
  }

  lemma BlocksOfSecond() returns (blocks: seq<Block>)
    ensures SecondBlocks(blocks)
  {
    hide Tiled, CpInsert, Deletes, Laid, Tight, Offset, InitialEntries;
    var start, y, both := TwoNames();
    var es := [Dot(), Up(24), File(4, 988, A)];
    Offsets(BothThere());
    var onlyA := EntryMerged(both, BothThere(), 2, 24);
    assert MergedEntries(BothThere(), 2) == es;
    Offsets(es);
    var none := EntryMerged(onlyA, es, 2, 36);
    assert MergedEntries(es, 2) == [Dot(), Up(1012)];
    var b := FirstName(none, B);
    LastKept(both, b, BothThere());
    blocks := [start, y, both, onlyA, none, b];
  }

  function SecondCommands(): (c: seq<Command>)
    ensures |c| == 7 && c[5] == Command.Restore(A) && c[6] == Rm(A, 2)
  {
    [Cp(Y, Small()), Cp(A, Small()), Rm(Y, 1), Rm(A, 1), Cp(B, Larger()), Command.Restore(A), Rm(A, 2)]
  }

  lemma SecondExecutes(s: seq<Fs>, d: seq<Block>)
    requires SecondImages(s) && SecondBlocks(d)
    ensures |s| == |d| == 6
    ensures forall i :: 0 <= i < 5 ==> Executes(s[i], d[i], SecondCommands()[i], s[i + 1], d[i + 1])
  {
    hide Inv, Copied, Removed, Deletes, CpInsert, Executes, Tiled, Laid, BAlive, Start, InitialEntries, Small, Larger;
    CpExecutes(s[0], d[0], Y, Small(), 2, s[1], d[1]);
    CpExecutes(s[1], d[1], A, Small(), 3, s[2], d[2]);
    RmExecutes(s[2], d[2], Y, 2, s[3], d[3]);
    RmExecutes(s[3], d[3], A, 3, s[4], d[4]);
    CpExecutes(s[4], d[4], B, Larger(), 2, s[5], d[5]);
  }

  /** Inode x + 1 is live and lists block n, which is marked free. */
  ghost predicate FreeBlockInUse(s: Fs, x: nat, n: nat) {
    Live(s, x) && CanRemove(s, x) && n in BlockList(s, x) && 1 <= n <= |s.bbits| && !s.bbits[n - 1]
  }

  /** Y and A copied in, both removed, B copied in with Y's inode and both blocks.  The restore of A gives
      up, but A's entry is back; removing A then succeeds, and a block of B is free although B is alive. */
  lemma RemoveAfterFailedRestore() returns (images: seq<Fs>, blocks: seq<Block>)
    ensures |images| == |blocks| == 8 && images[0] == Start(3) && blocks[0] == InitialEntries(Zeroes(), 2, 2)
    ensures Session(images, blocks, SecondCommands()) && forall i :: 0 <= i <= 6 ==> Inv(images[i])
    ensures RestoreCommand(images[5], blocks[5], A) == Some((images[5], blocks[6], false))
    ensures !Inv(images[7]) && FreeBlockInUse(images[7], 2, 3)
  {
    hide Inv, Executes, SecondImages, SecondBlocks, RestoreCommand, FreeBlockInUse, Start, InitialEntries,
      SecondCommands, BAlive, Tiled, Laid;
    var s := ImagesOfSecond();
    var d := BlocksOfSecond();
    SecondExecutes(s, d);
    assert SecondFacts(s, d) by { SecondOnly(s, d); }
    var c, t, e := BreaksB(s[5], d[5]);
    images, blocks := s + [s[5], t], d + [c, e];
  }

  /** What the last two commands need. */
  ghost predicate SecondFacts(s: seq<Fs>, d: seq<Block>) {
    && |s| == |d| == 6 && s[0] == Start(3) && d[0] == InitialEntries(Zeroes(), 2, 2)
    && (forall i :: 0 <= i < 6 ==> Inv(s[i])) && BAlive(s[5])
    && Tiled(d[5], [Dot(), Up(12), File(3, 1000, B)]) && Laid(d[5], 36, BLOCK_SIZE, [File(4, 988, A)])
  }

  lemma SecondOnly(s: seq<Fs>, d: seq<Block>)
    requires SecondImages(s) && SecondBlocks(d)
    ensures SecondFacts(s, d)
  {
    hide Inv, Copied, Removed, Deletes, CpInsert, Tiled, Laid, BAlive, Start, InitialEntries;
  }

  lemma BreaksB(s: Fs, b: Block) returns (c: Block, t: Fs, e: Block)
    requires BAlive(s) && Tiled(b, [Dot(), Up(12), File(3, 1000, B)]) && Laid(b, 36, BLOCK_SIZE, [File(4, 988, A)])
    ensures RestoreCommand(s, b, A) == Some((s, c, false))
    ensures Executes(s, b, Command.Restore(A), s, c) && Executes(s, c, Rm(A, 2), t, e)
    ensures !Inv(t) && FreeBlockInUse(t, 2, 3)
  {
    assert Shape(s);
    hide FreeBlockInUse, RestoreCommand, RmCommand, LiesDead, Inv, Tiled, Laid, Shape, RestoreFile, RemoveFile,
      CanRemove, HasFile, BlockList;
    InUse(s);
    LiesThere(s, b, B);
    c, t, e := DeadBreaks(s, b, [Dot(), Up(12), File(3, 1000, B)]);
    LosesBlock(s, t);
    RestoreExecutes(s, b, A, s, c, false);
  }

  lemma DeadBreaks(s: Fs, b: Block, es: seq<Entry>) returns (c: Block, t: Fs, e: Block)
    requires Inv(s) && Shape(s) && |s.ibits| > 3 && !s.ibits[3] && CanRemove(s, 3) && s.table[3].links == 0
    requires LiesDead(s, b, es, [[], []], 2, [File(4, 988, A)], 0, A) && RestoreFile(s, 3, FT_REG_FILE) == None
    ensures RestoreCommand(s, b, A) == Some((s, c, false)) && RmCommand(s, c, A, 2) == Some((t, e))
    ensures !Inv(t) && t == RemoveFile(s, 3, FT_REG_FILE, 2)
  {
    hide RestoreCommand, RmCommand, LiesDead, Inv, Shape, RestoreFile, RemoveFile, CanRemove;
    c, t, e := FailedRestoreThenRemove(s, b, es, [[], []], 2, [File(4, 988, A)], 0, A, 2);
  }

  lemma InUse(s: Fs)
    requires Inv(s) && HasFile(s, 2, [2, 3]) && CanRemove(s, 3) && BlockList(s, 3) == [3]
    ensures RestoreFile(s, 3, FT_REG_FILE) == None
  {
    assert Owns(s, 2);
    assert s.bbits[BlockList(s, 2)[1] - 1];
    assert BlockList(s, 3)[0] == 3;
  }

  lemma LosesBlock(s: Fs, t: Fs)
    requires HasFile(s, 2, [2, 3]) && CanRemove(s, 3) && BlockList(s, 3) == [3] && s.table[3].links == 0
    requires t == RemoveFile(s, 3, FT_REG_FILE, 2)
    ensures FreeBlockInUse(t, 2, 3)
  {
    FileStays(s, t, 2, [2, 3]);
    MarkedAt(s.bbits, [3], false, 2);
    assert BlockList(t, 2)[1] == 3;
  }

  // ---- A directory cut short ----

  function ThirdCommands(): (c: seq<Command>)
    ensures |c| == 3
  {
    [Cp(Y, Small()), Cp(A, Small()), Command.MakeDir(B, 1)]
  }

  /** Two files take the last two inodes.  A directory can then not be made, the image stays as it is, and
      yet the root directory is no longer well formed: the walk for any other new name, to add it or to
      remove it, does not come to an end. */
  lemma MkdirCutsShort() returns (images: seq<Fs>, blocks: seq<Block>)
    ensures |images| == |blocks| == 4 && images[0] == Start(3) && blocks[0] == InitialEntries(Zeroes(), 2, 2)
    ensures Session(images, blocks, ThirdCommands()) && images[3] == images[2] && Inv(images[2])
    ensures OneBlock(images[2], 1)
    ensures MkdirCommand(images[2], blocks[2], B, 1) == Some((images[2], blocks[3], false))
    ensures Tiled(blocks[2], BothThere()) && !ListIntact(images[2], BothThere(), B, blocks[3])
    ensures forall name: Name :: name != [] && Unnamed(BothThere(), name, 4) ==>
      && LastSearch(blocks[3], name, 0) == Broken && RmSearch(blocks[3], name, 0, 0) == NoProgress
      && MkdirCommand(images[2], blocks[3], name, 1) == None
  {
    hide Inv, Executes, Copied, CpInsert, TwoFiles, Start, InitialEntries, Tiled, ThirdCommands, MkdirCommand,
      ListIntact, OneBlock;
    var s, t, u := ImageBoth();
    var b, c, d := TwoNames();
    var e := NoInode(u, d);
    ThirdExecutes(s, t, u, b, c, d, e);
    images, blocks := [s, t, u, u], [b, c, d, e];
  }

  lemma ThirdExecutes(s: Fs, t: Fs, u: Fs, b: Block, c: Block, d: Block, e: Block)
    requires Copied(s, 2, Small(), t) && Copied(t, 3, Small(), u) && CpInsert(b, Y, 3) == Some(c)
    requires CpInsert(c, A, 4) == Some(d)
    requires Shape(u) && OneBlock(u, 1) && MkdirCommand(u, d, B, 1) == Some((u, e, false))
    ensures Executes(s, b, ThirdCommands()[0], t, c) && Executes(t, c, ThirdCommands()[1], u, d)
    ensures Executes(u, d, ThirdCommands()[2], u, e)
  {
    hide Copied, CpInsert, Small, Shape, OneBlock, MkdirCommand, CpCommand;
    CpExecutes(s, b, Y, Small(), 2, t, c);
    CpExecutes(t, c, A, Small(), 3, u, d);
  }

  lemma NoInode(s: Fs, b: Block) returns (c: Block)
    requires TwoFiles(s) && Tiled(b, BothThere()) && forall i :: 48 <= i < BLOCK_SIZE ==> b[i] == 0
    ensures Inv(s) && Shape(s) && OneBlock(s, 1) && MkdirCommand(s, b, B, 1) == Some((s, c, false))
    ensures !ListIntact(s, BothThere(), B, c)
    ensures forall name: Name :: name != [] && Unnamed(BothThere(), name, 4) ==>
      && LastSearch(c, name, 0) == Broken && RmSearch(c, name, 0, 0) == NoProgress
      && MkdirCommand(s, c, name, 1) == None
  {
    assert Shape(s);
    assert FreeInode(s) == None;
    hide Inv, HasFile, Shape, Tiled, MkdirCommand, LastSearch, RmSearch, FreeInode, ListIntact, Tight, Offset,
      HasRoomFor, OneBlock;
    RoomForB();
    MkdirExactly(s, b, BothThere(), B, 1);
    c := MkdirCommand(s, b, B, 1).value.1;
    forall name: Name | name != [] && Unnamed(BothThere(), name, 4)
      ensures LastSearch(c, name, 0) == Broken && RmSearch(c, name, 0, 0) == NoProgress
      ensures MkdirCommand(s, c, name, 1) == None
    {
      var d := MkdirStops(s, b, BothThere(), B, 1, name);
    }
  }

  lemma RoomForB()
    ensures HasRoomFor(BothThere(), B) && Unnamed(BothThere(), B, 4)
    ensures Offset(BothThere(), 3) == 36 && Tight(A) == 12
  {
    hide Offset, Tight;
    Offsets(BothThere());
    TightNames(A);
    TightNames(B);
  }
}
