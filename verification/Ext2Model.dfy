/** The disk image on values: bitmaps, free counters, inodes and blocks, and what the tools do to
    them: `remove_file`, `restore_file`, the copy loop with `add_file_loc`, and `add_directory`. */
module Ext2Model {
  import opened Options
  import opened DirBlocks
  import opened DirEdits
  import opened ByteMaps

  type UInt = n: nat | n < 0x1_0000_0000
  type UShort = n: nat | n < 0x1_0000

  const S_IFDIR: nat := 0x4000
  const S_IFREG: nat := 0x8000
  const DIRECT: nat := 12         // i_block[12] names the indirect block
  const POINTERS: nat := 256      // block numbers in an indirect block
  const MAX_LISTED: nat := 269    // 12 direct blocks, the indirect one and what it lists

  type Block = b: seq<Byte> | |b| == BLOCK_SIZE witness seq(BLOCK_SIZE, _ => 0)

  /** `sectors` is i_blocks, which counts half blocks. */
  datatype Inode = Inode(mode: nat, size: nat, dtime: nat, links: UShort, sectors: nat, block: seq<nat>)

  /** The free counters of the superblock and of the block group. */
  datatype Counters = Counters(sbBlocks: UInt, gdBlocks: UShort, sbInodes: UInt, gdInodes: UShort)

  /** bbits[n - 1] is block n's bit, ibits[n - 1] and table[n - 1] are inode n's bit and inode. */
  datatype Fs = Fs(bbits: seq<bool>, ibits: seq<bool>, counters: Counters,
                   table: seq<Inode>, blocks: seq<Block>, firstInode: nat)

  ghost predicate Shape(s: Fs) {
    && 1 <= |s.blocks| < 0x1_0000_0000 && |s.bbits| == |s.blocks| - 1
    && |s.ibits| == |s.table| < 0x1_0000_0000 && s.firstInode < |s.table|
    && forall x :: 0 <= x < |s.table| ==> |s.table[x].block| == 15
  }

  // ---- Counters, with the wrap-around of their width ----

  function Less(n: nat, width: nat): nat
    requires width > 0
  {
    if n == 0 then width - 1 else n - 1
  }

  function More(n: nat, width: nat): nat {
    if n + 1 == width then 0 else n + 1
  }

  function TakeBlock(c: Counters): Counters {
    c.(sbBlocks := Less(c.sbBlocks, 0x1_0000_0000), gdBlocks := Less(c.gdBlocks, 0x1_0000))
  }

  function GiveBlock(c: Counters): Counters {
    c.(sbBlocks := More(c.sbBlocks, 0x1_0000_0000), gdBlocks := More(c.gdBlocks, 0x1_0000))
  }

  function TakeInode(c: Counters): Counters {
    c.(sbInodes := Less(c.sbInodes, 0x1_0000_0000), gdInodes := Less(c.gdInodes, 0x1_0000))
  }

  function GiveInode(c: Counters): Counters {
    c.(sbInodes := More(c.sbInodes, 0x1_0000_0000), gdInodes := More(c.gdInodes, 0x1_0000))
  }

  function TakeBlocks(c: Counters, n: nat): Counters {
    if n == 0 then c else TakeBlock(TakeBlocks(c, n - 1))
  }

  function GiveBlocks(c: Counters, n: nat): Counters {
    if n == 0 then c else GiveBlock(GiveBlocks(c, n - 1))
  }

  // ---- The blocks of an inode ----

  /** Entry k of an indirect block. */
  function Pointer(b: Block, k: nat): (n: nat)
    requires k < POINTERS
    ensures n < 0x1_0000_0000
  {
    U32(b, 4 * k)
  }

  /** The loops over `i_blocks / 2` block numbers stay within the inode and its indirect block. */
  predicate Walkable(s: Fs, x: nat)
    requires x < |s.table|
  {
    var e := s.table[x];
    |e.block| == 15 && e.sectors / 2 <= MAX_LISTED && (e.sectors / 2 > 13 ==> e.block[DIRECT] < |s.blocks|)
  }

  /** Number i of the list: up to 12 from the inode, the indirect block being one of them, the rest
      from the indirect block. */
  function BlockNumber(s: Fs, x: nat, i: nat): nat
    requires x < |s.table| && Walkable(s, x) && i < s.table[x].sectors / 2
  {
    if i <= 12 then s.table[x].block[i] else Pointer(s.blocks[s.table[x].block[DIRECT]], i - 13)
  }

  function BlockList(s: Fs, x: nat): (list: seq<nat>)
    requires x < |s.table| && Walkable(s, x)
    ensures |list| == s.table[x].sectors / 2
  {
    seq(s.table[x].sectors / 2, i requires 0 <= i < s.table[x].sectors / 2 => BlockNumber(s, x, i))
  }

  /** Block numbers that have a bit. */
  predicate InRange(list: seq<nat>, bits: seq<bool>) {
    forall i :: 0 <= i < |list| ==> 1 <= list[i] <= |bits|
  }

  /** The bits of these blocks set to v, in the order of the list. */
  function Marked(bits: seq<bool>, list: seq<nat>, v: bool): (r: seq<bool>)
    requires InRange(list, bits)
    ensures |r| == |bits|
  {
    if list == [] then bits
    else Marked(bits, list[..|list| - 1], v)[list[|list| - 1] - 1 := v]
  }

  /** All of these blocks have bit v. */
  predicate AllBits(bits: seq<bool>, list: seq<nat>, v: bool)
    requires InRange(list, bits)
  {
    forall i :: 0 <= i < |list| ==> bits[list[i] - 1] == v
  }

  // ---- Removing and restoring ----

  predicate Removable(fileType: nat) {
    fileType == FT_REG_FILE || fileType == FT_SYMLINK
  }

  /** `remove_file` on inode x + 1 (its directory part is DirEdits.Merged). */
  function RemoveFile(s: Fs, x: nat, fileType: nat, now: nat): (t: Fs)
    requires x < |s.table| == |s.ibits| && Walkable(s, x) && InRange(BlockList(s, x), s.bbits)
  {
    var e := s.table[x];
    if !Removable(fileType) then s
    else if e.links > 1 && fileType != FT_SYMLINK then s.(table := s.table[x := e.(links := e.links - 1)])
    else
      s.(bbits := Marked(s.bbits, BlockList(s, x), false),
         ibits := s.ibits[x := false],
         counters := GiveInode(GiveBlocks(s.counters, |BlockList(s, x)|)),
         table := s.table[x := e.(dtime := now, links := Less(e.links, 0x1_0000))])
  }

  /** `restore_file` on inode x + 1 (its directory part is DirEdits.Resized).  None when it gives up
      because a block is in use again or the mode is 2. */
  function RestoreFile(s: Fs, x: nat, fileType: nat): (t: Option<Fs>)
    requires x < |s.table| == |s.ibits| && Walkable(s, x) && InRange(BlockList(s, x), s.bbits)
  {
    var e := s.table[x];
    var list := BlockList(s, x);
    if !AllBits(s.bbits, list, false) || e.mode == FT_DIR then None
    else
      var linked := Removable(fileType) && e.links >= 1 && fileType != FT_SYMLINK;
      var marked := Removable(fileType) && !linked;
      var e' := if linked then e.(links := More(e.links, 0x1_0000))
                else if marked && list != [] then e.(dtime := 0) else e;
      Some(s.(bbits := if marked then Marked(s.bbits, list, true) else s.bbits,
              ibits := s.ibits[x := true],
              counters := TakeInode(if marked then TakeBlocks(s.counters, |list|) else s.counters),
              table := s.table[x := e'.(links := More(e'.links, 0x1_0000))]))
  }

  // ---- Allocating ----

  /** `find_free_block_index`: the block number. */
  function AllocBlock(s: Fs): Option<(Fs, nat)> {
    var k := LowestClear(s.bbits, 0, |s.bbits|);
    if k == |s.bbits| then None else Some((s.(bbits := s.bbits[k := true]), k + 1))
  }

  /** `find_invalid_indode_index` as the tools call it: from inode number s_first_ino + 1 up to but
      not including the last inode; the index of the inode found. */
  function FreeInode(s: Fs): (x: Option<nat>)
    requires s.firstInode < |s.table| == |s.ibits|
    ensures x.Some? ==> s.firstInode <= x.value < |s.ibits| - 1 && !s.ibits[x.value]
  {
    var k := LowestClear(s.ibits, s.firstInode, |s.ibits| - 1);
    if k == |s.ibits| - 1 then None else Some(k)
  }

  // ---- Copying a file in ----

  /** `pad_file_len`. */
  function FileBlocks(size: nat): nat {
    if size % 1024 != 0 then size / 1024 + 1 else size / 1024
  }

  /** The inode part of `add_file_loc`. */
  function CreateFile(s: Fs, x: nat): Fs
    requires x < |s.table| == |s.ibits|
  {
    s.(ibits := s.ibits[x := true],
       table := s.table[x := s.table[x].(mode := S_IFREG, size := BLOCK_SIZE, links := 0, sectors := 0, dtime := 0)])
  }

  /** The image and what is left to read of the source. */
  datatype Copying = Copying(fs: Fs, rest: seq<Byte>)

  function Chunk(rest: seq<Byte>): (c: seq<Byte>)
    ensures |c| <= BLOCK_SIZE && c <= rest
  {
    if |rest| <= BLOCK_SIZE then rest else rest[..BLOCK_SIZE]
  }

  /** `memcpy` of a chunk to the start of a block. */
  function Filled(b: Block, chunk: seq<Byte>): (c: Block)
    requires |chunk| <= BLOCK_SIZE
  {
    PutBytes(b, 0, chunk)
  }

  /** The allocation, the counters and the data of one block of the file. */
  function StoreChunk(s: Fs, x: nat, n: nat, chunk: seq<Byte>): Fs
    requires x < |s.table| && n < |s.blocks| && |chunk| <= BLOCK_SIZE
  {
    s.(counters := TakeBlock(s.counters),
       blocks := s.blocks[n := Filled(s.blocks[n], chunk)],
       table := s.table[x := s.table[x].(size := s.table[x].size + |chunk|)])
  }

  /** Iteration i of the loop in the copier's `main`; None when no block is free. */
  function CopyTurn(c: Copying, x: nat, i: nat): (r: Option<Copying>)
    requires Shape(c.fs) && x < |c.fs.table| && i < MAX_LISTED
    requires i > DIRECT ==> c.fs.table[x].block[DIRECT] < |c.fs.blocks|
    ensures r.Some? ==> Shape(r.value.fs) && |r.value.fs.table| == |c.fs.table| && |r.value.fs.blocks| == |c.fs.blocks|
    ensures r.Some? && i >= DIRECT ==> r.value.fs.table[x].block[DIRECT] < |c.fs.blocks|
  {
    if i != DIRECT && c.rest == [] then Some(c)
    else
      match AllocBlock(c.fs)
      case None => None
      case Some((s, n)) =>
        if i == DIRECT then
          Some(c.(fs := s.(counters := TakeBlock(s.counters),
                           table := s.table[x :=
                             s.table[x].(block := s.table[x].block[i := n], sectors := s.table[x].sectors + 2)])))
        else
          var chunk := Chunk(c.rest);
          Some(Copying(StoreChunk(Linked(s, x, i, n), x, n, chunk), c.rest[|chunk|..]))
  }

  /** Block n recorded as number i of the file: in the inode, or in its indirect block. */
  function Linked(s: Fs, x: nat, i: nat, n: nat): (t: Fs)
    requires Shape(s) && x < |s.table| && i != DIRECT && i < MAX_LISTED
    requires i > DIRECT ==> s.table[x].block[DIRECT] < |s.blocks|
    ensures Shape(t) && |t.table| == |s.table| && |t.blocks| == |s.blocks|
  {
    if i < DIRECT then s.(table := s.table[x := s.table[x].(block := s.table[x].block[i := n])])
    else
      var d := s.table[x].block[DIRECT];
      s.(blocks := s.blocks[d := Put32(s.blocks[d], 4 * (i - 13), n)])
  }

  /** The first i iterations. */
  ghost function CopyLoop(c: Copying, x: nat, i: nat): (r: Option<Copying>)
    requires Shape(c.fs) && x < |c.fs.table| && i <= MAX_LISTED
    ensures r.Some? ==> Shape(r.value.fs) && |r.value.fs.table| == |c.fs.table| && |r.value.fs.blocks| == |c.fs.blocks|
    ensures r.Some? && i > DIRECT ==> r.value.fs.table[x].block[DIRECT] < |c.fs.blocks|
  {
    if i == 0 then Some(c)
    else
      match CopyLoop(c, x, i - 1)
      case None => None
      case Some(d) => CopyTurn(d, x, i - 1)
  }

  lemma NextTurn(start: Copying, x: nat, i: nat, c: Copying)
    requires Shape(start.fs) && x < |start.fs.table| && i < MAX_LISTED && CopyLoop(start, x, i) == Some(c)
    ensures CopyLoop(start, x, i + 1) == CopyTurn(c, x, i)
  {
    hide CopyTurn;
  }

  /** The image as the loop finds it. */
  function BeginFile(s: Fs, x: nat): Fs
    requires x < |s.table| == |s.ibits|
  {
    var created := CreateFile(s, x);
    created.(counters := TakeInode(created.counters), table := created.table[x := created.table[x].(size := 0)])
  }

  /** The assignments after the loop. */
  function EndFile(s: Fs, x: nat, used: nat): Fs
    requires x < |s.table| && used > 0
  {
    var e := s.table[x];
    s.(table := s.table[x := e.(sectors := e.sectors + (used - 1) * 2, links := More(e.links, 0x1_0000))])
  }

  /** The copier's `main` on inode x + 1, but for the directory block.  None when it reports that
      there is no space, and when the loop finds no free block all the same. */
  ghost function CopyFile(s: Fs, x: nat, data: seq<Byte>): Option<Fs>
    requires Shape(s) && x < |s.table| && FileBlocks(|data|) < MAX_LISTED
  {
    var used := FileBlocks(|data|) + 1;
    if used > s.counters.sbBlocks then None
    else
      match CopyLoop(Copying(BeginFile(s, x), data), x, used)
      case None => None
      case Some(c) => Some(EndFile(c.fs, x, used))
  }

  // ---- Reading a file ----

  /** The place of data block d in the list of the inode's blocks. */
  function Slot(d: nat): nat {
    if d < DIRECT then d else d + 1
  }

  predicate HasData(s: Fs, x: nat, d: nat)
    requires x < |s.table|
  {
    Walkable(s, x) && Slot(d) < s.table[x].sectors / 2 && BlockNumber(s, x, Slot(d)) < |s.blocks|
  }

  /** The first d data blocks: i_block[0..11], then what the indirect block names. */
  function ReadBlocks(s: Fs, x: nat, d: nat): (data: seq<Byte>)
    requires x < |s.table| && forall j: nat :: j < d ==> HasData(s, x, j)
    ensures |data| == BLOCK_SIZE * d
  {
    if d == 0 then []
    else
      assert HasData(s, x, d - 1);
      ReadBlocks(s, x, d - 1) + s.blocks[BlockNumber(s, x, Slot(d - 1))]
  }

  /** The contents of a file: its blocks, cut off at its size. */
  function ReadFile(s: Fs, x: nat): Option<seq<Byte>>
    requires x < |s.table|
  {
    var size := s.table[x].size;
    var d := FileBlocks(size);
    if forall j: nat :: j < d ==> HasData(s, x, j) then Some(ReadBlocks(s, x, d)[..size]) else None
  }

  // ---- Making a directory ----

  /** `add_directory` up to its search for a block. */
  function BeginDirectory(s: Fs, x: nat): (t: Fs)
    requires x < |s.table| == |s.ibits|
  {
    s.(ibits := s.ibits[x := true], counters := TakeInode(s.counters),
       table := s.table[x := s.table[x].(mode := S_IFDIR, size := BLOCK_SIZE, links := 2, sectors := 2, dtime := 0)])
  }

  /** The rest of it, with block n in hand. */
  function FinishDirectory(s: Fs, x: nat, n: nat, parent: nat): (t: Fs)
    requires Shape(s) && x < |s.table| && parent < |s.table| && n < |s.blocks|
  {
    var made := s.table[x := s.table[x].(block := s.table[x].block[0 := n])];
    s.(counters := TakeBlock(s.counters),
       table := made[parent := made[parent].(links := More(made[parent].links, 0x1_0000))],
       blocks := s.blocks[n := InitialEntries(s.blocks[n], x + 1, parent + 1)])
  }

  /** `add_directory` but for the parent's directory block, and whether it gets to its end.  Without a
      free inode it exits at once; without a free block it exits with the inode already taken. */
  function MakeDirectory(s: Fs, parent: nat): (Fs, bool)
    requires Shape(s) && parent < |s.table|
  {
    match FreeInode(s)
    case None => (s, false)
    case Some(x) =>
      var begun := BeginDirectory(s, x);
      match AllocBlock(begun)
      case None => (begun, false)
      case Some((t, n)) => (FinishDirectory(t, x, n, parent), true)
  }
}
