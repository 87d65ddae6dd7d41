/** A small image with a root directory, and what single commands do to it: copies and removals of files, on
    the image and on the directory block. */
module SmallImage {
  import opened Options
  import opened Counting
  import opened DirBlocks
  import opened DirEdits
  import opened DirWalks
  import opened ByteMaps
  import opened Ext2Model
  import opened Undelete
  import opened CopyIn
  import opened CopyRemove
  import opened Mkdir
  import opened AllocationRuns
  import opened CommandRuns

  // ---- The image to start from ----

  function Zeroes(): Block {
    seq(BLOCK_SIZE, _ => 0)
  }

  function Blank(): Inode {
    Inode(0, 0, 0, 0, 0, seq(15, _ => 0))
  }

  function Root(): Inode {
    Inode(S_IFDIR, BLOCK_SIZE, 0, 2, 2, [1] + seq(14, _ => 0))
  }

  /** A root directory in block 1 and inode 2, n free blocks, and inodes 3 and 4 for files. */
  function Start(n: nat): Fs
    requires n < 100
  {
    Fs([true] + seq(n, _ => false), [true, true, false, false, false], Counters(n, n, 3, 3),
       [Blank(), Root(), Blank(), Blank(), Blank()], seq(n + 2, _ => Zeroes()), 2)
  }

  lemma {:induction false} ClearCount(bits: seq<bool>)
    requires forall i :: 0 <= i < |bits| ==> !bits[i]
    ensures Count(bits, false) == |bits|
  {
    if bits != [] { ClearCount(bits[1..]); }
  }

  lemma StartCounted(n: nat)
    requires n < 100
    ensures Counted(Start(n))
  {
    CountAppend([true], seq(n, _ => false), false);
    ClearCount(seq(n, _ => false));
    CountAppend([true, true], [false, false, false], false);
    ClearCount([false, false, false]);
    assert Start(n).ibits == [true, true] + [false, false, false];
  }

  lemma StartInv(n: nat)
    requires n < 100
    ensures Inv(Start(n))
  {
    var s := Start(n);
    StartCounted(n);
    assert Sized(s);
    assert BlockList(s, 0) == [] && BlockList(s, 1) == [1];
    forall x: nat | Live(s, x) ensures Owns(s, x) { assert x == 0 || x == 1; }
    forall x: nat, y: nat | Live(s, x) && Live(s, y) && x != y ensures Apart(s, x, y) { assert x == 0 || y == 0; }
  }

  // ---- A copy ----

  /** The image just before a copy of data into inode x + 1: its blocks follow f used ones. */
  ghost predicate Ready(s: Fs, x: nat, data: seq<Byte>, f: nat) {
    && Inv(s) && s.firstInode <= x < |s.ibits| - 1 && !s.ibits[x] && (forall i :: s.firstInode <= i < x ==> s.ibits[i])
    && FileBlocks(|data|) < MAX_LISTED && FileBlocks(|data|) + 1 <= s.counters.sbBlocks
    && f + Needed(FileBlocks(|data|)) <= |s.bbits|
    && (forall i :: 0 <= i < f ==> s.bbits[i])
    && (forall i :: f <= i < f + Needed(FileBlocks(|data|)) ==> !s.bbits[i])
  }

  /** What a copy starts from and comes to. */
  ghost predicate Copied(s: Fs, x: nat, data: seq<Byte>, t: Fs) {
    Inv(s) && Shape(s) && x < |s.table| && FileBlocks(|data|) < MAX_LISTED && FreeInode(s) == Some(x)
      && CopyFile(s, x, data) == Some(t)
  }

  /** The copy is a step, it keeps the image consistent, and the file gets the blocks after the used ones. */
  lemma CopyStep(s: Fs, x: nat, data: seq<Byte>, f: nat) returns (t: Fs, list: seq<nat>)
    requires Ready(s, x, data, f)
    ensures Copied(s, x, data, t) && Steps(s, t) && Inv(t) && Live(t, x)
    ensures CopiedTo(s, x, data, t, list) && Ascends(list, f) && CanRemove(t, x) && BlockList(t, x) == list
  {
    hide CopyFile, Taken, LowestClear, CopiedTo;
    LowestClearIs(s.ibits, s.firstInode, |s.ibits| - 1, x);
    FreeInodeIs(s, x);
    t, list := CopyResult(s, x, data);
    TakenInOrder(s.bbits, f, Needed(FileBlocks(|data|)));
    CopyKeeps(s, x, data);
    StepOf(s, Copy(data), t);
    CopyOwned(s, x, data, t, list);
  }

  lemma FreeInodeIs(s: Fs, x: nat)
    requires s.firstInode < |s.table| == |s.ibits| && x < |s.ibits| - 1
    requires LowestClear(s.ibits, s.firstInode, |s.ibits| - 1) == x
    ensures FreeInode(s) == Some(x)
  {
  }

  lemma StepOf(s: Fs, step: Step, t: Fs)
    requires Shape(s) && Next(s, step) == Some(t)
    ensures Steps(s, t)
  {
  }

  lemma CopyOwned(s: Fs, x: nat, data: seq<Byte>, t: Fs, list: seq<nat>)
    requires CopiedTo(s, x, data, t, list) && Inv(t)
    ensures Live(t, x) && CanRemove(t, x) && BlockList(t, x) == list
  {
    CopyLists(s, x, data, t, list);
    assert Owns(t, x);
  }

  // ---- Bits and lists ----

  /** The first n bits are set and the others clear. */
  ghost predicate Upto(bits: seq<bool>, n: nat) {
    n <= |bits| && forall i :: 0 <= i < |bits| ==> bits[i] == (i < n)
  }

  lemma UptoCount(bits: seq<bool>, n: nat)
    requires Upto(bits, n)
    ensures Count(bits, false) == |bits| - n
  {
    assert bits == bits[..n] + bits[n..];
    CountAppend(bits[..n], bits[n..], false);
    AllSetNoneClear(bits[..n]);
    ClearCount(bits[n..]);
  }

  /** Blocks in a row, marked or freed. */
  lemma RunAt(bits: seq<bool>, list: seq<nat>, f: nat, v: bool)
    requires InRange(list, bits) && Ascends(list, f)
    ensures forall i :: 0 <= i < |bits| ==> Marked(bits, list, v)[i] == if f <= i < f + |list| then v else bits[i]
  {
    hide Marked;
    forall i | 0 <= i < |bits| ensures Marked(bits, list, v)[i] == if f <= i < f + |list| then v else bits[i] {
      MarkedAt(bits, list, v, i);
      if f <= i < f + |list| { assert list[i - f] == i + 1; }
    }
  }

  /** A live regular file with one link and these blocks. */
  ghost predicate HasFile(s: Fs, x: nat, list: seq<nat>) {
    Live(s, x) && CanRemove(s, x) && BlockList(s, x) == list && s.table[x].links == 1
  }

  /** A file without an indirect block depends on its inode only. */
  lemma FileStays(s: Fs, t: Fs, y: nat, list: seq<nat>)
    requires HasFile(s, y, list) && |list| <= 13 && Live(t, y) && t.table[y] == s.table[y]
    requires |t.table| == |t.ibits| == |s.table| && |t.bbits| == |s.bbits| && |t.blocks| == |s.blocks|
    ensures HasFile(t, y, list)
  {
    ListStays(s, t, y);
  }

  // ---- A removal ----

  /** Removing a file's last link is a step that frees its blocks and keeps the image consistent. */
  lemma RemoveStep(s: Fs, x: nat, list: seq<nat>) returns (t: Fs)
    requires Inv(s) && HasFile(s, x, list)
    ensures t == RemoveFile(s, x, FT_REG_FILE, 1) && Steps(s, t) && Inv(t)
    ensures t.bbits == Marked(s.bbits, list, false) && t.ibits == s.ibits[x := false]
    ensures t.blocks == s.blocks && t.firstInode == s.firstInode
    ensures t.table == s.table[x := s.table[x].(dtime := 1, links := 0)]
  {
    assert Shape(s);
    hide Marked, Inv;
    t := RemoveFile(s, x, FT_REG_FILE, 1);
    RemoveKeepsExactly(s, x, FT_REG_FILE, 1);
    StepOf(s, Remove(x, FT_REG_FILE, 1), t);
  }

  /** What a removal starts from and comes to. */
  ghost predicate Removed(s: Fs, x: nat, t: Fs) {
    CanRemove(s, x) && t == RemoveFile(s, x, FT_REG_FILE, 1)
  }

  // ---- The first copy ----

  /** One block of data. */
  function Small(): seq<Byte> {
    [0]
  }

  lemma StartReady(n: nat)
    requires 3 <= n < 100
    ensures Ready(Start(n), 2, Small(), 1) && |Start(n).bbits| == n + 1 && Upto(Start(n).bbits, 1)
  {
    StartInv(n);
  }

  /** The first copy takes inode 3 and block 2. */
  lemma CopyFirst(n: nat) returns (s: Fs, t: Fs)
    requires 3 <= n < 100
    ensures s == Start(n) && Inv(s) && Copied(s, 2, Small(), t) && Steps(s, t) && Inv(t)
    ensures |t.bbits| == n + 1 && Upto(t.bbits, 2) && t.ibits == [true, true, true, false, false] && t.firstInode == 2
    ensures HasFile(t, 2, [2]) && OneBlock(t, 1)
  {
    hide Inv, Copied, CanRemove, BlockList;
    s := Start(n);
    StartReady(n);
    StartInv(n);
    var list;
    t, list := CopyStep(s, 2, Small(), 1);
    assert list == [2];
    RunAt(s.bbits, list, 1, true);
  }

  // ---- The directory ----

  const Y: Name := [89]
  const A: Name := [65]
  const B: Name := [66]
  const C: Name := [67]
  const Z: Name := [90]

  function Dot(): Entry {
    Entry(2, 12, FT_DIR, [46])
  }

  function Up(len: nat): Entry {
    Entry(2, len, FT_DIR, [46, 46])
  }

  function File(inode: nat, len: nat, name: Name): Entry {
    Entry(inode, len, FT_REG_FILE, name)
  }

  lemma TightNames(name: Name)
    requires |name| == 1
    ensures Tight([46]) == Tight([46, 46]) == Tight(name) == 12
  {
  }

  lemma Offsets(es: seq<Entry>)
    requires 2 <= |es| <= 4 && es[0].recLen == 12
    ensures Offset(es, 0) == 0 && Offset(es, 1) == 12 && Offset(es, 2) == 12 + es[1].recLen
    ensures |es| > 2 ==> Offset(es, 3) == 12 + es[1].recLen + es[2].recLen
  {
    OffsetStep(es, 0);
    OffsetStep(es, 1);
    if |es| > 2 { OffsetStep(es, 2); }
  }

  /** A copy behind the last entry, which leaves alone what lies behind the new entry's name. */
  lemma EntryAdded(b: Block, es: seq<Entry>, o: nat, name: Name, inode: nat) returns (c: Block)
    requires Tiled(b, es) && Unnamed(es, name, |es|) && inode < 0x1_0000_0000 && |name| == 1
    requires o == Offset(es, |es| - 1) && Tight(es[|es| - 1].name) == Tight(name) == 12 && o + 24 <= BLOCK_SIZE
    ensures CpInsert(b, name, inode) == Some(c)
    ensures Tiled(c, es[..|es| - 1] + [es[|es| - 1].(recLen := 12)] + [File(inode, BLOCK_SIZE - o - 12, name)])
    ensures forall i :: o + 21 <= i < BLOCK_SIZE ==> c[i] == b[i]
  {
    hide LastSearch, Offset, Tight, Laid;
    CpInsertExactly(b, es, name, inode);
    LastIsLast(b, es, name);
    EntryThere(b, es, |es| - 1);
    c := CpInsert(b, name, inode).value;
    AddedFrame(b, o, name, inode, FT_REG_FILE);
  }

  lemma AddedFrame(b: seq<Byte>, o: nat, name: Name, inode: nat, fileType: nat)
    requires |b| == BLOCK_SIZE && Readable(b, o) && Tight(EntryAt(b, o).name) == 12
    requires o + 12 + HEADER + |name| <= BLOCK_SIZE
    ensures forall i :: o + 12 + HEADER + |name| <= i < BLOCK_SIZE ==> Added(b, o, name, inode, fileType)[i] == b[i]
  {
    hide Tight;
  }

  /** The walk finds the name as a file in this inode, and its merge with the entry before gives block c. */
  ghost predicate Deletes(b: Block, name: Name, inode: nat, c: Block) {
    && RmSearch(b, name, 0, 0).Found?
    && var o, size := RmSearch(b, name, 0, 0).offset, RmSearch(b, name, 0, 0).lastSize;
    && size <= o && Readable(b, o) && EntryAt(b, o).inode == inode && EntryAt(b, o).fileType == FT_REG_FILE
    && c == Merged(b, o, size)
  }

  /** The removal of entry k. */
  lemma EntryMerged(b: Block, es: seq<Entry>, k: nat, o: nat) returns (c: Block)
    requires Tiled(b, es) && 0 < k < |es| && o == Offset(es, k) && Unnamed(es, es[k].name, k)
    requires es[k].fileType == FT_REG_FILE
    ensures Deletes(b, es[k].name, es[k].inode, c)
    ensures Tiled(c, MergedEntries(es, k)) && forall i :: o <= i < BLOCK_SIZE ==> c[i] == b[i]
  {
    hide Offset, Laid, RmSearch;
    RmFinds(b, es, es[k].name, k);
    EntryThere(b, es, k);
    MergeDeletes(b, es, k);
    MergeIs(b, es, k);
    assert Fits(es[k - 1]);
    c := Merged(b, o, es[k - 1].recLen);
  }

  /** A live entry that takes no more room than it needs. */
  lemma NoGap(b: seq<Byte>, o: nat, e: Entry, bits: seq<bool>, name: Name)
    requires Passed(e, bits, name) && Tight(e.name) == e.recLen
    ensures Gap(b, o, e, [], bits, name)
  {
    hide Tight;
  }

  /** Y and A copied into the new root directory; behind A's name there are zeroes. */
  lemma TwoNames() returns (start: Block, y: Block, both: Block)
    ensures start == InitialEntries(Zeroes(), 2, 2) && CpInsert(start, Y, 3) == Some(y)
    ensures CpInsert(y, A, 4) == Some(both)
    ensures Tiled(both, BothThere()) && forall i :: 48 <= i < BLOCK_SIZE ==> both[i] == 0
  {
    hide Tiled, CpInsert, Tight, Offset;
    TightNames(A);
    TightNames(Y);
    start := InitialEntries(Zeroes(), 2, 2);
    InitialTiled(Zeroes(), 2, 2);
    InitialFrame();
    y := FirstName(start, Y);
    var es := [Dot(), Up(12), File(3, 1000, Y)];
    Offsets(es);
    both := EntryAdded(y, es, 24, A, 4);
    assert es[..2] + [es[2].(recLen := 12)] + [File(4, 988, A)] == BothThere();
  }

  /** The directory with both. */
  function BothThere(): seq<Entry> {
    [Dot(), Up(12), File(3, 12, Y), File(4, 988, A)]
  }

  lemma InitialFrame()
    ensures forall i :: 22 <= i < BLOCK_SIZE ==> InitialEntries(Zeroes(), 2, 2)[i] == 0
  {
  }

  /** A first name, copied into an empty directory. */
  lemma FirstName(b: Block, name: Name) returns (c: Block)
    requires Tiled(b, [Dot(), Up(1012)]) && |name| == 1 && name != [46]
    ensures CpInsert(b, name, 3) == Some(c) && Tiled(c, [Dot(), Up(12), File(3, 1000, name)])
    ensures forall i :: 36 <= i < BLOCK_SIZE ==> c[i] == b[i]
  {
    hide Tiled, CpInsert, Tight, Offset;
    TightNames(name);
    var es := [Dot(), Up(1012)];
    Offsets(es);
    c := EntryAdded(b, es, 12, name, 3);
    assert es[..1] + [es[1].(recLen := 12)] + [File(3, 1000, name)] == [Dot(), Up(12), File(3, 1000, name)];
  }

  /** The removal of the only name. */
  lemma OnlyName(b: Block, name: Name) returns (c: Block)
    requires Tiled(b, [Dot(), Up(12), File(3, 1000, name)]) && |name| == 1 && name != [46]
    ensures Deletes(b, name, 3, c) && Tiled(c, [Dot(), Up(1012)])
    ensures forall i :: 36 <= i < BLOCK_SIZE ==> c[i] == b[i]
  {
    hide Tiled, Deletes, Tight, Offset;
    var es := [Dot(), Up(12), File(3, 1000, name)];
    Offsets(es);
    c := EntryMerged(b, es, 2, 24);
    assert MergedEntries(es, 2) == [Dot(), Up(1012)];
  }

  lemma LastKept(both: Block, b: Block, es: seq<Entry>)
    requires es == BothThere() && Tiled(both, es)
    requires forall i :: 36 <= i < BLOCK_SIZE ==> b[i] == both[i]
    ensures Laid(b, 36, BLOCK_SIZE, [File(4, 988, A)])
  {
    Offsets(es);
    SuffixStays(both, b, es, 3);
    assert es[3..] == [File(4, 988, A)];
  }

  /** A's entry lies dead behind the only name. */
  lemma LiesThere(s: Fs, b: Block, name: Name)
    requires Tiled(b, [Dot(), Up(12), File(3, 1000, name)]) && |name| == 1 && name != A
    requires Laid(b, 36, BLOCK_SIZE, [File(4, 988, A)])
    requires s.ibits == [true, true, true, false, false] && CanRemove(s, 3)
    ensures LiesDead(s, b, [Dot(), Up(12), File(3, 1000, name)], [[], []], 2, [File(4, 988, A)], 0, A)
  {
    hide Tiled, Laid, Gap, Tight, CanRemove, Offset;
    var es := [Dot(), Up(12), File(3, 1000, name)];
    TightNames(name);
    Offsets(es);
    OffsetStep(es, 2);
    NoGap(b, 0, Dot(), s.ibits, A);
    NoGap(b, 12, Up(12), s.ibits, A);
  }

  // ---- Image and directory together ----

  lemma CpExecutes(s: Fs, b: Block, name: Name, data: seq<Byte>, x: nat, t: Fs, c: Block)
    requires Copied(s, x, data, t) && CpInsert(b, name, x + 1) == Some(c)
    ensures Executes(s, b, Cp(name, data), t, c)
  {
    hide CpInsert, CopyFile, CpCommand, Inv, FreeInode;
    CpIs(s, b, name, data, x, t, c);
  }

  lemma RmExecutes(s: Fs, b: Block, name: Name, x: nat, t: Fs, c: Block)
    requires Inv(s) && Removed(s, x, t) && Deletes(b, name, x + 1, c)
    ensures Executes(s, b, Rm(name, 1), t, c)
  {
    assert Shape(s);
    hide Inv, RmCommand, RmSearch, Merged, RemoveFile, CanRemove;
    var o, size := RmSearch(b, name, 0, 0).offset, RmSearch(b, name, 0, 0).lastSize;
    RmIs(s, b, name, 1, o, size, EntryAt(b, o));
  }
}
