/** Copying a file into the image: the blocks allocated, that reading them back gives the source, and
    that removing the file gives the space back. */
module CopyIn {
  import opened Options
  import opened Counting
  import opened DirBlocks
  import opened ByteMaps
  import opened Ext2Model
  import opened Undelete

  // ---- Which blocks are taken ----

  lemma {:induction false} MarkedCount(bits: seq<bool>, list: seq<nat>, v: bool)
    requires InRange(list, bits) && Distinct(list) && AllBits(bits, list, !v)
    ensures Count(Marked(bits, list, v), !v) == Count(bits, !v) - |list|
    ensures Count(Marked(bits, list, v), v) == Count(bits, v) + |list|
    decreases |list|
  {
    if list != [] {
      var n := |list| - 1;
      MarkedCount(bits, list[..n], v);
      MarkedAt(bits, list[..n], v, list[n] - 1);
      var before := Marked(bits, list[..n], v);
      assert before[list[n] - 1] == !v;
      CountUpdate(before, list[n] - 1, v, !v);
      CountUpdate(before, list[n] - 1, v, v);
    }
  }

  lemma {:induction false} AllSetNoneClear(bits: seq<bool>)
    requires forall i :: 0 <= i < |bits| ==> bits[i]
    ensures Count(bits, false) == 0
  {
    if bits != [] { AllSetNoneClear(bits[1..]); }
  }

  lemma NextFree(bits: seq<bool>, before: seq<nat>)
    requires InRange(before, bits) && Distinct(before) && AllBits(bits, before, false) && |before| < Count(bits, false)
    ensures var k := LowestClear(Marked(bits, before, true), 0, |bits|); k < |bits| && !bits[k] && k + 1 !in before
  {
    var marked := Marked(bits, before, true);
    MarkedCount(bits, before, true);
    var k := LowestClear(marked, 0, |bits|);
    if k == |bits| { AllSetNoneClear(marked); }
    MarkedAt(bits, before, true, k);
  }

  /** The first m blocks that the search for a free block yields: m different blocks, all free. */
  ghost function Taken(bits: seq<bool>, m: nat): (list: seq<nat>)
    requires m <= Count(bits, false)
    ensures |list| == m && InRange(list, bits) && Distinct(list) && AllBits(bits, list, false)
  {
    if m == 0 then []
    else
      var before := Taken(bits, m - 1);
      NextFree(bits, before);
      before + [LowestClear(Marked(bits, before, true), 0, |bits|) + 1]
  }

  /** Free blocks that follow each other are taken in order. */
  lemma {:induction false} TakenInOrder(bits: seq<bool>, f: nat, m: nat)
    requires f + m <= |bits| && m <= Count(bits, false)
    requires (forall i :: 0 <= i < f ==> bits[i]) && forall i :: f <= i < f + m ==> !bits[i]
    ensures Ascends(Taken(bits, m), f)
  {
    hide Taken, Marked, LowestClear, Distinct, AllBits;
    if m > 0 {
      TakenInOrder(bits, f, m - 1);
      TakenPrefix(bits, m - 1);
      AscendsMore(bits, f, Taken(bits, m - 1), Taken(bits, m));
    }
  }

  /** The list is f + 1, f + 2 and so on. */
  predicate Ascends(list: seq<nat>, f: nat) {
    forall i :: 0 <= i < |list| ==> list[i] == f + 1 + i
  }

  lemma AscendsMore(bits: seq<bool>, f: nat, before: seq<nat>, list: seq<nat>)
    requires f + |before| < |bits| && InRange(before, bits) && Ascends(before, f)
    requires (forall i :: 0 <= i < f ==> bits[i]) && !bits[f + |before|]
    requires |list| == |before| + 1 && list[..|before|] == before
    requires list[|before|] == LowestClear(Marked(bits, before, true), 0, |bits|) + 1
    ensures Ascends(list, f)
  {
    hide Marked, LowestClear;
    RunMarked(bits, f, |before|, before);
    LowestClearIs(Marked(bits, before, true), 0, |bits|, f + |before|);
    forall i | 0 <= i < |list| ensures list[i] == f + 1 + i { if i < |before| { assert list[i] == before[i]; } }
  }

  lemma RunMarked(bits: seq<bool>, f: nat, m: nat, list: seq<nat>)
    requires f + m < |bits| && |list| == m && InRange(list, bits) && forall i :: 0 <= i < m ==> list[i] == f + 1 + i
    requires (forall i :: 0 <= i < f ==> bits[i]) && !bits[f + m]
    ensures !Marked(bits, list, true)[f + m] && forall i: nat :: i < f + m ==> Marked(bits, list, true)[i]
  {
    hide Marked;
    MarkedAt(bits, list, true, f + m);
    forall i: nat | i < f + m ensures Marked(bits, list, true)[i] {
      MarkedAt(bits, list, true, i);
      if f <= i { assert list[i - f] == i + 1; }
    }
  }

  lemma TakenPrefix(bits: seq<bool>, m: nat)
    requires m < Count(bits, false)
    ensures Taken(bits, m + 1)[..m] == Taken(bits, m)
    ensures Marked(bits, Taken(bits, m + 1), true)
      == Marked(bits, Taken(bits, m), true)[Taken(bits, m + 1)[m] - 1 := true]
    ensures LowestClear(Marked(bits, Taken(bits, m), true), 0, |bits|) == Taken(bits, m + 1)[m] - 1 < |bits|
  {
  }

  // ---- Where the loop stands ----

  /** Blocks the copy of k data blocks allocates: one more for the indirect block if k reaches 12. */
  function Needed(k: nat): nat {
    if k < DIRECT then k else k + 1
  }

  /** How much of the source has been read before turn i. */
  function Pos(size: nat, i: nat): (p: nat)
    ensures p <= size
  {
    var read := BLOCK_SIZE * if i <= DIRECT then i else i - 1;
    if read < size then read else size
  }

  lemma PosStep(size: nat, i: nat)
    requires i < Needed(FileBlocks(size))
    ensures i == DIRECT ==> Pos(size, i + 1) == Pos(size, i)
    ensures i != DIRECT ==> Pos(size, i) < size
    ensures i != DIRECT ==>
      Pos(size, i + 1) == if Pos(size, i) + BLOCK_SIZE <= size then Pos(size, i) + BLOCK_SIZE else size
  {
    var k := FileBlocks(size);
    assert size <= BLOCK_SIZE * k < size + BLOCK_SIZE;
  }

  lemma PosEnd(size: nat)
    ensures Pos(size, Needed(FileBlocks(size))) == size
  {
    assert size <= BLOCK_SIZE * FileBlocks(size) < size + BLOCK_SIZE;
  }

  /** The loop stands after turn |list|, having taken these blocks. */
  ghost predicate CopyBits(s: Fs, list: seq<nat>, t: Fs)
    requires InRange(list, s.bbits)
  {
    && t.bbits == Marked(s.bbits, list, true) && t.counters == TakeBlocks(s.counters, |list|)
    && t.ibits == s.ibits && t.firstInode == s.firstInode
  }

  ghost predicate CopyEntry(s: Fs, x: nat, data: seq<Byte>, list: seq<nat>, t: Fs)
    requires x < |s.table|
  {
    && |t.table| == |s.table| && t.table == s.table[x := t.table[x]]
    && EntryAfter(s.table[x], data, list, t.table[x])
  }

  ghost predicate EntryAfter(was: Inode, data: seq<Byte>, list: seq<nat>, e: Inode) {
    && e == was.(size := Pos(|data|, |list|), sectors := if |list| > DIRECT then 2 else 0, block := e.block)
    && |e.block| == 15
    && (forall j :: 0 <= j < |list| && j <= DIRECT ==> e.block[j] == list[j])
  }

  /** The data read on turn j is at the start of the block taken on turn j. */
  ghost predicate Stored(blocks: seq<Block>, n: nat, data: seq<Byte>, j: nat) {
    && n < |blocks|
    && Pos(|data|, j) <= Pos(|data|, j + 1) <= Pos(|data|, j) + BLOCK_SIZE
    && blocks[n][..Pos(|data|, j + 1) - Pos(|data|, j)] == data[Pos(|data|, j)..Pos(|data|, j + 1)]
  }

  ghost predicate CopyBlocks(was: seq<Block>, data: seq<Byte>, list: seq<nat>, blocks: seq<Block>) {
    && |blocks| == |was| && (forall j :: 0 <= j < |list| ==> list[j] < |blocks|)
    && (forall n :: 0 <= n < |blocks| && n !in list ==> blocks[n] == was[n])
    && (forall j :: 0 <= j < |list| && j != DIRECT ==> Stored(blocks, list[j], data, j))
    && (forall j :: DIRECT < j < |list| && j < MAX_LISTED ==> Pointer(blocks[list[DIRECT]], j - 13) == list[j])
  }

  // ---- One turn ----

  lemma PutPointer(b: Block, k: nat, n: nat, m: nat)
    requires k < POINTERS && m < POINTERS && n < 0x1_0000_0000
    ensures Pointer(Put32(b, 4 * k, n), m) == if m == k then n else Pointer(b, m)
  {
    if m == k { Put32Value(b, 4 * k, n); }
  }

  /** The inode after turn i has taken block n. */
  ghost function EntryNext(e: Inode, i: nat, n: nat, read: nat): Inode
    requires |e.block| == 15
  {
    if i < DIRECT then e.(block := e.block[i := n], size := e.size + read)
    else if i == DIRECT then e.(block := e.block[i := n], sectors := e.sectors + 2)
    else e.(size := e.size + read)
  }

  /** The blocks after turn i has taken block n; d is the indirect block. */
  ghost function Written(blocks: seq<Block>, d: nat, i: nat, n: nat, chunk: seq<Byte>): seq<Block>
    requires n < |blocks| && |chunk| <= BLOCK_SIZE && i < MAX_LISTED && (i > DIRECT ==> d < |blocks|)
  {
    if i == DIRECT then blocks
    else
      var linked := if i > DIRECT then blocks[d := Put32(blocks[d], 4 * (i - 13), n)] else blocks;
      linked[n := Filled(linked[n], chunk)]
  }

  /** A turn that finds a free block. */
  lemma TurnIs(c: Copying, x: nat, i: nat, n: nat) returns (d: Copying)
    requires Shape(c.fs) && x < |c.fs.table| && i < MAX_LISTED
    requires i > DIRECT ==> c.fs.table[x].block[DIRECT] < |c.fs.blocks|
    requires i != DIRECT ==> c.rest != []
    requires LowestClear(c.fs.bbits, 0, |c.fs.bbits|) == n - 1 < |c.fs.bbits|
    ensures CopyTurn(c, x, i) == Some(d)
    ensures d.rest == if i == DIRECT then c.rest else c.rest[|Chunk(c.rest)|..]
    ensures d.fs.bbits == c.fs.bbits[n - 1 := true] && d.fs.counters == TakeBlock(c.fs.counters)
    ensures d.fs.ibits == c.fs.ibits && d.fs.firstInode == c.fs.firstInode
    ensures d.fs.table == c.fs.table[x := EntryNext(c.fs.table[x], i, n, |Chunk(c.rest)|)]
    ensures d.fs.blocks == Written(c.fs.blocks, c.fs.table[x].block[DIRECT], i, n, Chunk(c.rest))
  {
    d := CopyTurn(c, x, i).value;
  }

  lemma ChunkIs(data: seq<Byte>, i: nat)
    requires i < Needed(FileBlocks(|data|)) && i != DIRECT
    ensures Chunk(data[Pos(|data|, i)..]) == data[Pos(|data|, i)..Pos(|data|, i + 1)]
    ensures data[Pos(|data|, i)..][|Chunk(data[Pos(|data|, i)..])|..] == data[Pos(|data|, i + 1)..]
    ensures Pos(|data|, i) < |data| && |Chunk(data[Pos(|data|, i)..])| == Pos(|data|, i + 1) - Pos(|data|, i)
  {
    PosStep(|data|, i);
  }

  lemma StepEntry(was: Inode, data: seq<Byte>, list: seq<nat>, e: Inode, n: nat, read: nat)
    requires |list| < Needed(FileBlocks(|data|)) && EntryAfter(was, data, list, e)
    requires |list| != DIRECT ==> read == Pos(|data|, |list| + 1) - Pos(|data|, |list|)
    ensures EntryAfter(was, data, list + [n], EntryNext(e, |list|, n, read))
  {
    PosStep(|data|, |list|);
  }

  lemma StepBlocks(was: seq<Block>, data: seq<Byte>, list: seq<nat>, blocks: seq<Block>, n: nat, d: nat)
    requires |list| < Needed(FileBlocks(|data|)) && |list| < MAX_LISTED && |was| < 0x1_0000_0000
    requires CopyBlocks(was, data, list, blocks) && Distinct(list) && n !in list && n < |blocks|
    requires |list| > DIRECT ==> d == list[DIRECT]
    requires |list| != DIRECT
    ensures Pos(|data|, |list|) <= Pos(|data|, |list| + 1) <= Pos(|data|, |list|) + BLOCK_SIZE
    ensures CopyBlocks(was, data, list + [n],
      Written(blocks, d, |list|, n, data[Pos(|data|, |list|)..Pos(|data|, |list| + 1)]))
  {
    PosStep(|data|, |list|);
    var chunk := data[Pos(|data|, |list|)..Pos(|data|, |list| + 1)];
    StepUntouched(was, data, list, blocks, n, d, chunk);
    StepStored(was, data, list, blocks, n, d, chunk);
    StepPointers(was, data, list, blocks, n, d, chunk);
  }

  lemma StepUntouched(was: seq<Block>, data: seq<Byte>, list: seq<nat>, blocks: seq<Block>, n: nat, d: nat,
      chunk: seq<Byte>)
    requires |list| < MAX_LISTED && CopyBlocks(was, data, list, blocks) && n < |blocks| && |chunk| <= BLOCK_SIZE
    requires |list| > DIRECT ==> d == list[DIRECT]
    ensures forall m :: 0 <= m < |blocks| && m !in list + [n] ==> Written(blocks, d, |list|, n, chunk)[m] == was[m]
  {
    forall m | 0 <= m < |blocks| && m !in list + [n] ensures Written(blocks, d, |list|, n, chunk)[m] == was[m] {
      assert m !in list && m != n;
    }
  }

  lemma StepStored(was: seq<Block>, data: seq<Byte>, list: seq<nat>, blocks: seq<Block>, n: nat, d: nat,
      chunk: seq<Byte>)
    requires |list| < MAX_LISTED && CopyBlocks(was, data, list, blocks) && Distinct(list) && n !in list && n < |blocks|
    requires |list| > DIRECT ==> d == list[DIRECT]
    requires Pos(|data|, |list|) <= Pos(|data|, |list| + 1) <= Pos(|data|, |list|) + BLOCK_SIZE
    requires chunk == data[Pos(|data|, |list|)..Pos(|data|, |list| + 1)] && |list| != DIRECT
    ensures forall j :: 0 <= j < |list| + 1 && j != DIRECT ==>
      Stored(Written(blocks, d, |list|, n, chunk), (list + [n])[j], data, j)
  {
    forall j | 0 <= j < |list| + 1 && j != DIRECT
      ensures Stored(Written(blocks, d, |list|, n, chunk), (list + [n])[j], data, j)
    {
      if j < |list| { StoredStays(blocks, list, data, d, n, chunk, j); }
    }
  }

  lemma StepPointers(was: seq<Block>, data: seq<Byte>, list: seq<nat>, blocks: seq<Block>, n: nat, d: nat,
      chunk: seq<Byte>)
    requires |list| < MAX_LISTED && CopyBlocks(was, data, list, blocks) && n !in list && n < |blocks|
    requires |chunk| <= BLOCK_SIZE
    requires |list| > DIRECT ==> d == list[DIRECT]
    requires |list| != DIRECT && |was| < 0x1_0000_0000
    ensures forall j :: DIRECT < j < |list| + 1 && j < MAX_LISTED ==>
      Pointer(Written(blocks, d, |list|, n, chunk)[(list + [n])[DIRECT]], j - 13) == (list + [n])[j]
  {
    hide Stored, Pos, Filled;
    forall j | DIRECT < j < |list| + 1 && j < MAX_LISTED
      ensures Pointer(Written(blocks, d, |list|, n, chunk)[(list + [n])[DIRECT]], j - 13) == (list + [n])[j]
    {
      PutPointer(blocks[d], |list| - 13, n, j - 13);
    }
  }

  lemma StoredStays(blocks: seq<Block>, list: seq<nat>, data: seq<Byte>, d: nat, n: nat, chunk: seq<Byte>, j: nat)
    requires Distinct(list) && j < |list| < MAX_LISTED && j != DIRECT && n < |blocks| && n !in list
    requires |chunk| <= BLOCK_SIZE
    requires |list| > DIRECT ==> d == list[DIRECT] < |blocks|
    requires Stored(blocks, list[j], data, j)
    ensures Stored(Written(blocks, d, |list|, n, chunk), list[j], data, j)
  {
    assert list[j] != n;
    if |list| > DIRECT { assert list[j] != list[DIRECT]; }
  }

  // ---- The whole loop ----

  /** A file's inode as the loop finds it. */
  ghost predicate Fresh(s: Fs, x: nat) {
    Shape(s) && x < |s.table| && s.table[x].size == 0 && s.table[x].sectors == 0
  }

  ghost predicate Standing(s: Fs, x: nat, data: seq<Byte>, list: seq<nat>, c: Copying)
    requires x < |s.table| && InRange(list, s.bbits)
  {
    && CopyBits(s, list, c.fs) && CopyEntry(s, x, data, list, c.fs) && c.rest == data[Pos(|data|, |list|)..]
    && CopyBlocks(s.blocks, data, list, c.fs.blocks)
  }

  lemma StepWith(s: Fs, x: nat, data: seq<Byte>, list: seq<nat>, n: nat, c: Copying) returns (d: Copying)
    requires Fresh(s, x) && |list| < Needed(FileBlocks(|data|)) && |list| < MAX_LISTED && InRange(list, s.bbits)
    requires Shape(c.fs) && Standing(s, x, data, list, c) && Distinct(list) && n !in list && 1 <= n <= |s.bbits|
    requires LowestClear(c.fs.bbits, 0, |c.fs.bbits|) == n - 1
    ensures |list| > DIRECT ==> c.fs.table[x].block[DIRECT] < |c.fs.blocks|
    ensures CopyTurn(c, x, |list|) == Some(d) && Standing(s, x, data, list + [n], d)
  {
    hide CopyTurn, Marked, LowestClear, Pos, Needed, Chunk, Distinct;
    var i := |list|;
    if i > DIRECT { assert c.fs.table[x].block[DIRECT] == list[DIRECT]; }
    if i != DIRECT { ChunkIs(data, i); } else { PosStep(|data|, i); }
    d := TurnIs(c, x, i, n);
    StepEntry(s.table[x], data, list, c.fs.table[x], n, |Chunk(c.rest)|);
    MarkNext(s.bbits, list, n);
    if i != DIRECT {
      StepBlocks(s.blocks, data, list, c.fs.blocks, n, c.fs.table[x].block[DIRECT]);
    } else {
      StepIndirect(s.blocks, data, list, c.fs.blocks, n);
    }
  }

  lemma MarkNext(bits: seq<bool>, list: seq<nat>, n: nat)
    requires InRange(list, bits) && 1 <= n <= |bits|
    ensures InRange(list + [n], bits) && Marked(bits, list + [n], true) == Marked(bits, list, true)[n - 1 := true]
  {
    var more := list + [n];
    assert more[..|list|] == list && more[|list|] == n;
  }

  lemma StepIndirect(was: seq<Block>, data: seq<Byte>, list: seq<nat>, blocks: seq<Block>, n: nat)
    requires |list| == DIRECT && CopyBlocks(was, data, list, blocks) && n < |blocks|
    ensures CopyBlocks(was, data, list + [n], blocks)
  {
    forall m | 0 <= m < |blocks| && m !in list + [n] ensures blocks[m] == was[m] { assert m !in list; }
  }

  lemma StepStanding(s: Fs, x: nat, data: seq<Byte>, i: nat, c: Copying) returns (d: Copying)
    requires Fresh(s, x) && i < Needed(FileBlocks(|data|)) && i < MAX_LISTED && i < Count(s.bbits, false)
    requires Shape(c.fs) && Standing(s, x, data, Taken(s.bbits, i), c)
    ensures i > DIRECT ==> c.fs.table[x].block[DIRECT] < |c.fs.blocks|
    ensures CopyTurn(c, x, i) == Some(d) && Standing(s, x, data, Taken(s.bbits, i + 1), d)
  {
    hide Taken, CopyTurn, CopyEntry, CopyBlocks, LowestClear;
    var n := Taken(s.bbits, i + 1)[i];
    TakenPrefix(s.bbits, i);
    NewBlock(s.bbits, i);
    d := StepWith(s, x, data, Taken(s.bbits, i), n, c);
    assert Taken(s.bbits, i + 1) == Taken(s.bbits, i) + [n];
  }

  lemma NewBlock(bits: seq<bool>, i: nat)
    requires i < Count(bits, false)
    ensures Taken(bits, i + 1)[i] !in Taken(bits, i)
  {
    TakenPrefix(bits, i);
    var next := Taken(bits, i + 1);
    forall j | 0 <= j < i ensures next[..i][j] != next[i] { }
  }

  lemma StartStanding(s: Fs, x: nat, data: seq<Byte>)
    requires Fresh(s, x)
    ensures Standing(s, x, data, [], Copying(s, data))
  {
    assert s.table[x := s.table[x]] == s.table;
  }

  lemma {:induction false} LoopReaches(s: Fs, x: nat, data: seq<Byte>, i: nat) returns (c: Copying)
    requires Fresh(s, x) && i <= Needed(FileBlocks(|data|)) && i <= MAX_LISTED && i <= Count(s.bbits, false)
    ensures CopyLoop(Copying(s, data), x, i) == Some(c) && Standing(s, x, data, Taken(s.bbits, i), c)
  {
    hide Taken, CopyTurn, CopyLoop, Standing;
    if i == 0 {
      c := Copying(s, data);
      LoopStarts(s, x, data);
    } else {
      var before := LoopReaches(s, x, data, i - 1);
      c := StepStanding(s, x, data, i - 1, before);
      NextTurn(Copying(s, data), x, i - 1, before);
    }
  }

  lemma LoopStarts(s: Fs, x: nat, data: seq<Byte>)
    requires Fresh(s, x)
    ensures CopyLoop(Copying(s, data), x, 0) == Some(Copying(s, data)) && Taken(s.bbits, 0) == []
    ensures Standing(s, x, data, Taken(s.bbits, 0), Copying(s, data))
  {
    hide Standing;
    StartStanding(s, x, data);
    assert Taken(s.bbits, 0) == [];
  }

  // ---- The results ----

  lemma FullLoop(s: Fs, x: nat, data: seq<Byte>) returns (c: Copying)
    requires Fresh(s, x) && FileBlocks(|data|) < MAX_LISTED && FileBlocks(|data|) + 1 <= Count(s.bbits, false)
    ensures CopyLoop(Copying(s, data), x, FileBlocks(|data|) + 1) == Some(c)
    ensures Standing(s, x, data, Taken(s.bbits, Needed(FileBlocks(|data|))), c)
  {
    hide Taken, CopyTurn, CopyLoop, CopyBits, CopyEntry, CopyBlocks;
    var k := FileBlocks(|data|);
    c := LoopReaches(s, x, data, Needed(k));
    PosEnd(|data|);
    assert c.rest == [];
    if k < DIRECT { IdleTurn(Copying(s, data), x, k, c); }
  }

  /** A turn with nothing left to read. */
  lemma IdleTurn(start: Copying, x: nat, i: nat, c: Copying)
    requires Shape(start.fs) && x < |start.fs.table| && i < DIRECT
    requires CopyLoop(start, x, i) == Some(c) && c.rest == []
    ensures CopyLoop(start, x, i + 1) == Some(c)
  {
  }

  lemma BeginFresh(s: Fs, x: nat)
    requires Shape(s) && x < |s.table|
    ensures Fresh(BeginFile(s, x), x) && BeginFile(s, x).bbits == s.bbits && BeginFile(s, x).blocks == s.blocks
  {
  }

  /** With consistent counters the copy succeeds exactly if there is one block to spare beyond the
      data, which is what the test before the loop asks for. */
  lemma CopySucceeds(s: Fs, x: nat, data: seq<Byte>)
    requires Shape(s) && x < |s.table| && FileBlocks(|data|) < MAX_LISTED
    requires s.counters.sbBlocks == Count(s.bbits, false)
    ensures CopyFile(s, x, data).Some? <==> FileBlocks(|data|) + 1 <= Count(s.bbits, false)
  {
    BeginFresh(s, x);
    if FileBlocks(|data|) + 1 <= Count(s.bbits, false) {
      var c := FullLoop(BeginFile(s, x), x, data);
    }
  }

  ghost predicate HasRoom(s: Fs, x: nat, data: seq<Byte>) {
    && Shape(s) && x < |s.table| && FileBlocks(|data|) < MAX_LISTED
    && s.counters.sbBlocks == Count(s.bbits, false) && FileBlocks(|data|) + 1 <= Count(s.bbits, false)
  }

  /** The image t after copying data into inode x + 1, which took these blocks. */
  ghost predicate CopiedTo(s: Fs, x: nat, data: seq<Byte>, t: Fs, list: seq<nat>) {
    && x < |s.table| == |t.table| && |list| == Needed(FileBlocks(|data|)) <= MAX_LISTED
    && InRange(list, s.bbits) && Distinct(list) && AllBits(s.bbits, list, false)
    && t.bbits == Marked(s.bbits, list, true) && |s.ibits| == |s.table| && t.ibits == s.ibits[x := true]
    && t.firstInode == s.firstInode && t.counters == TakeBlocks(TakeInode(s.counters), |list|)
    && t.table == s.table[x := t.table[x]]
    && var e := t.table[x];
    && e.size == |data| && e.links == 1 && e.dtime == 0 && e.mode == S_IFREG && e.sectors == 2 * |list|
    && |e.block| == 15 && (forall j :: 0 <= j < |list| && j <= DIRECT ==> e.block[j] == list[j])
    && CopyBlocks(s.blocks, data, list, t.blocks)
  }

  lemma CopyResult(s: Fs, x: nat, data: seq<Byte>) returns (t: Fs, list: seq<nat>)
    requires HasRoom(s, x, data)
    ensures CopyFile(s, x, data) == Some(t) && CopiedTo(s, x, data, t, list)
    ensures Needed(FileBlocks(|data|)) <= Count(s.bbits, false) && list == Taken(s.bbits, Needed(FileBlocks(|data|)))
  {
    BeginFresh(s, x);
    var u := BeginFile(s, x);
    var taken := Taken(s.bbits, Needed(FileBlocks(|data|)));
    list := taken;
    var c := FullLoop(u, x, data);
    PosEnd(|data|);
    t := EndFile(c.fs, x, FileBlocks(|data|) + 1);
    EndTable(s, x, u, c.fs, t, FileBlocks(|data|) + 1);
  }

  lemma EndTable(s: Fs, x: nat, u: Fs, c: Fs, t: Fs, used: nat)
    requires x < |s.table| == |s.ibits| && used > 0 && u == BeginFile(s, x)
    requires |c.table| == |u.table| && c.table == u.table[x := c.table[x]] && t == EndFile(c, x, used)
    ensures |t.table| == |s.table| && t.table == s.table[x := t.table[x]]
  {
  }

  /** The file lists exactly the blocks the copy took. */
  lemma CopyLists(s: Fs, x: nat, data: seq<Byte>, t: Fs, list: seq<nat>)
    requires CopiedTo(s, x, data, t, list)
    ensures Walkable(t, x) && BlockList(t, x) == list
  {
    if |list| > DIRECT { assert t.table[x].block[DIRECT] == list[DIRECT]; }
    assert Walkable(t, x);
    forall i | 0 <= i < |list| ensures BlockNumber(t, x, i) == list[i] { }
    assert BlockList(t, x) == list;
  }

  lemma {:induction false} ReadsBack(s: Fs, x: nat, data: seq<Byte>, t: Fs, list: seq<nat>, d: nat)
    requires x < |t.table| && Walkable(t, x) && BlockList(t, x) == list && d <= FileBlocks(|data|)
    requires |list| == Needed(FileBlocks(|data|)) && CopyBlocks(s.blocks, data, list, t.blocks)
    ensures forall j: nat :: j < d ==> HasData(t, x, j)
    ensures var n := if BLOCK_SIZE * d < |data| then BLOCK_SIZE * d else |data|;
      n <= |ReadBlocks(t, x, d)| && ReadBlocks(t, x, d)[..n] == data[..n]
  {
    hide CopyBlocks, Needed, Walkable, BlockList, HasData;
    if d > 0 {
      ReadsBack(s, x, data, t, list, d - 1);
      DataPlace(s, x, data, t, list, d - 1);
      BlockHolds(data, t.blocks, list[Slot(d - 1)], d);
      OneMoreBlock(data, ReadBlocks(t, x, d - 1), t.blocks[list[Slot(d - 1)]], d);
    }
  }

  lemma DataPlace(s: Fs, x: nat, data: seq<Byte>, t: Fs, list: seq<nat>, d: nat)
    requires x < |t.table| && Walkable(t, x) && BlockList(t, x) == list && d < FileBlocks(|data|)
    requires |list| == Needed(FileBlocks(|data|)) && CopyBlocks(s.blocks, data, list, t.blocks)
    ensures HasData(t, x, d) && BlockNumber(t, x, Slot(d)) == list[Slot(d)]
    ensures Stored(t.blocks, list[Slot(d)], data, Slot(d))
  {
    assert BlockList(t, x)[Slot(d)] == list[Slot(d)];
  }

  lemma BlockHolds(data: seq<Byte>, blocks: seq<Block>, n: nat, d: nat)
    requires 0 < d <= FileBlocks(|data|) && Stored(blocks, n, data, Slot(d - 1))
    ensures BLOCK_SIZE * (d - 1) <= |data|
    ensures var from := BLOCK_SIZE * (d - 1); var end := if BLOCK_SIZE * d < |data| then BLOCK_SIZE * d else |data|;
      blocks[n][..end - from] == data[from..end]
  {
    var from, end := BLOCK_SIZE * (d - 1), if BLOCK_SIZE * d < |data| then BLOCK_SIZE * d else |data|;
    assert from == Pos(|data|, Slot(d - 1)) && end == Pos(|data|, Slot(d - 1) + 1);
  }

  lemma OneMoreBlock(data: seq<Byte>, before: seq<Byte>, b: Block, d: nat)
    requires 0 < d <= FileBlocks(|data|) && |before| == BLOCK_SIZE * (d - 1) <= |data| && before == data[..|before|]
    requires var from := BLOCK_SIZE * (d - 1); var end := if BLOCK_SIZE * d < |data| then BLOCK_SIZE * d else |data|;
      b[..end - from] == data[from..end]
    ensures var n := if BLOCK_SIZE * d < |data| then BLOCK_SIZE * d else |data|;
      n <= |before + b| && (before + b)[..n] == data[..n]
  {
  }

  lemma ReadsAll(s: Fs, x: nat, data: seq<Byte>, t: Fs, list: seq<nat>)
    requires CopiedTo(s, x, data, t, list)
    ensures ReadFile(t, x) == Some(data)
  {
    CopyLists(s, x, data, t, list);
    var k := FileBlocks(|data|);
    ReadsBack(s, x, data, t, list, k);
    assert |data| <= BLOCK_SIZE * k;
    assert data[..|data|] == data;
  }

  /** A copy is faithful: reading the file back gives the source, byte for byte, for every size up to
      the 268 blocks an inode and its indirect block can list. */
  lemma CopyIsFaithful(s: Fs, x: nat, data: seq<Byte>) returns (t: Fs)
    requires HasRoom(s, x, data)
    ensures CopyFile(s, x, data) == Some(t) && x < |t.table| && ReadFile(t, x) == Some(data)
  {
    var list;
    t, list := CopyResult(s, x, data);
    ReadsAll(s, x, data, t, list);
  }

  lemma SetClear(bits: seq<bool>, list: seq<nat>)
    requires InRange(list, bits) && AllBits(bits, list, false)
    ensures Marked(Marked(bits, list, true), list, false) == bits
  {
    var marked := Marked(bits, list, true);
    forall j: nat | j < |bits| ensures Marked(marked, list, false)[j] == bits[j] {
      MarkedAt(bits, list, true, j);
      MarkedAt(marked, list, false, j);
      if j + 1 in list { var i :| 0 <= i < |list| && list[i] == j + 1; }
    }
  }

  lemma RemovedAgain(s: Fs, x: nat, data: seq<Byte>, t: Fs, list: seq<nat>, now: nat)
    requires CopiedTo(s, x, data, t, list) && !s.ibits[x]
    ensures CanRemove(t, x)
    ensures var r := RemoveFile(t, x, FT_REG_FILE, now);
      r.bbits == s.bbits && r.ibits == s.ibits && r.counters == s.counters
  {
    CopyLists(s, x, data, t, list);
    SetClear(s.bbits, list);
    TakeGive(TakeInode(s.counters), |list|);
    assert t.ibits[x := false] == s.ibits;
  }

  /** Removing the copied file gives back both bitmaps and all four counters. */
  lemma RemoveUndoesCopy(s: Fs, x: nat, data: seq<Byte>, now: nat) returns (t: Fs, r: Fs)
    requires HasRoom(s, x, data) && !s.ibits[x]
    ensures CopyFile(s, x, data) == Some(t) && CanRemove(t, x) && r == RemoveFile(t, x, FT_REG_FILE, now)
    ensures r.bbits == s.bbits && r.ibits == s.ibits && r.counters == s.counters
  {
    var list;
    t, list := CopyResult(s, x, data);
    RemovedAgain(s, x, data, t, list, now);
    r := RemoveFile(t, x, FT_REG_FILE, now);
  }
}
