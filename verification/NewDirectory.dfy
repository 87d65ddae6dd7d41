/** The directory that mkdir makes: its own entries, its inode, its parent's inode and what stays. */
module NewDirectory {
  import opened Options
  import opened Counting
  import opened DirBlocks
  import opened DirEdits
  import opened DirWalks
  import opened ByteMaps
  import opened Ext2Model
  import opened Mkdir

  /** Inode x is the first free one, block n the first free one. */
  ghost predicate FirstFree(s: Fs, x: nat, n: nat) {
    && s.firstInode <= x < |s.ibits| - 1 && !s.ibits[x] && (forall i :: s.firstInode <= i < x ==> s.ibits[i])
    && 1 <= n <= |s.bbits| && !s.bbits[n - 1] && (forall i :: 0 <= i < n - 1 ==> s.bbits[i])
  }

  /** A directory's first block: itself and its parent. */
  ghost predicate OwnEntries(b: Block, inode: nat, parent: nat) {
    Tiled(b, [Entry(inode, 12, FT_DIR, [46]), Entry(parent, 1012, FT_DIR, [46, 46])])
  }

  /** All four counters are one lower. */
  predicate OneTaken(c: Counters, d: Counters) {
    && (d.sbBlocks + 1) % 0x1_0000_0000 == c.sbBlocks && (d.gdBlocks + 1) % 0x1_0000 == c.gdBlocks
    && (d.sbInodes + 1) % 0x1_0000_0000 == c.sbInodes && (d.gdInodes + 1) % 0x1_0000 == c.gdInodes
  }

  /** Image t is image s with a new directory: in inode x and block n, its parent linked once more. */
  ghost predicate Made(s: Fs, t: Fs, x: nat, n: nat, parent: nat) {
    && FirstFree(s, x, n) && t.ibits == s.ibits[x := true] && t.bbits == s.bbits[n - 1 := true]
    && OneTaken(s.counters, t.counters) && t.firstInode == s.firstInode
    && n < |s.blocks| == |t.blocks| && OwnEntries(t.blocks[n], x + 1, parent + 1)
    && (forall m :: 0 <= m < |s.blocks| && m != n ==> t.blocks[m] == s.blocks[m])
    && x < |s.table| == |t.table| && parent < |s.table| && MadeInode(t.table[x], n, if parent == x then 3 else 2)
    && (parent != x ==> LinkedOnceMore(s.table[parent], t.table[parent]))
    && (forall y :: 0 <= y < |s.table| && y != x && y != parent ==> t.table[y] == s.table[y])
  }

  predicate MadeInode(e: Inode, n: nat, links: nat) {
    && e.mode == S_IFDIR && e.size == 1024 && e.sectors == 2 && e.dtime == 0 && e.links == links
    && |e.block| == 15 && e.block[0] == n
  }

  predicate LinkedOnceMore(e: Inode, f: Inode) {
    f == e.(links := f.links) && f.links == (e.links + 1) % 0x1_0000
  }

  lemma MoreIs(k: nat, width: nat)
    requires k < width
    ensures More(k, width) == (k + 1) % width
  {
    if k + 1 < width { Small(k + 1, width); }
  }

  lemma Small(k: nat, width: nat)
    requires k < width
    ensures k % width == k
  {
  }

  lemma LessIs(k: nat, width: nat)
    requires k < width
    ensures (Less(k, width) + 1) % width == k
  {
    if k > 0 { Small(k, width); }
  }

  /** `add_directory` gets to its end exactly if an inode and a block are free, and then the image has the
      new directory. */
  lemma MakesDirectory(s: Fs, parent: nat) returns (x: nat, n: nat)
    requires Shape(s) && parent < |s.table|
    ensures MakeDirectory(s, parent).1 <==> FreeInode(s).Some? && Count(s.bbits, false) >= 1
    ensures MakeDirectory(s, parent).1 ==> FreeInode(s) == Some(x) && Made(s, MakeDirectory(s, parent).0, x, n, parent)
  {
    hide LowestClear, Count, Made;
    x, n := 0, LowestClear(s.bbits, 0, |s.bbits|) + 1;
    FreeCounted(s.bbits);
    if FreeInode(s).Some? && n <= |s.bbits| {
      x := FreeInode(s).value;
      MadeHere(s, parent, x, n);
    }
  }

  /** A block is free if the count of clear bits says so. */
  lemma FreeCounted(bits: seq<bool>)
    ensures Count(bits, false) >= 1 <==> LowestClear(bits, 0, |bits|) < |bits|
  {
    CountIn(bits, false);
    if LowestClear(bits, 0, |bits|) < |bits| { assert bits[LowestClear(bits, 0, |bits|)] in bits; }
  }

  lemma MadeHere(s: Fs, parent: nat, x: nat, n: nat)
    requires Shape(s) && parent < |s.table| && FreeInode(s) == Some(x)
    requires n == LowestClear(s.bbits, 0, |s.bbits|) + 1 <= |s.bbits|
    ensures MakeDirectory(s, parent).1 && Made(s, MakeDirectory(s, parent).0, x, n, parent)
  {
    hide Tiled, OneTaken, InitialEntries;
    TakenOnce(s.counters);
    MoreIs(s.table[parent].links, 0x1_0000);
    MoreIs(2, 0x1_0000);
    InitialTiled(s.blocks[n], x + 1, parent + 1);
  }

  lemma TakenOnce(c: Counters)
    ensures OneTaken(c, TakeBlock(TakeInode(c)))
  {
    hide Less;
    LessIs(c.sbBlocks, 0x1_0000_0000);
    LessIs(c.gdBlocks, 0x1_0000);
    LessIs(c.sbInodes, 0x1_0000_0000);
    LessIs(c.gdInodes, 0x1_0000);
  }

  // ---- The whole command ----

  /** Image u is image s with a second block m for the parent, marked but not counted, that holds one
      entry: a directory of this name in inode x. */
  ghost predicate Grown(s: Fs, u: Fs, m: nat, parent: nat, name: Name, x: nat) {
    && 1 <= m <= |s.bbits| && !s.bbits[m - 1] && (forall i :: 0 <= i < m - 1 ==> s.bbits[i])
    && m < |s.blocks| == |u.blocks| && parent < |s.table| && |s.table[parent].block| == 15
    && u == s.(bbits := s.bbits[m - 1 := true], blocks := s.blocks[m := u.blocks[m]], table := s.table[parent :=
         s.table[parent].(block := s.table[parent].block[1 := m], sectors := s.table[parent].sectors + 2)])
    && Tiled(u.blocks[m], [Entry(x + 1, 1024, FT_DIR, name)])
  }

  /** The new directory goes by its name in the parent's block, or in a second one. */
  ghost predicate Entered(s: Fs, b: Block, es: seq<Entry>, name: Name, parent: nat, t: Fs, c: Block, x: nat, n: nat) {
    if HasRoomFor(es, name) then
      Made(s, t, x, n, parent) && Tiled(c, Appended(es, |es| - 1, name, x + 1, FT_DIR))
    else
      c == b && exists u: Fs, m: nat :: Grown(s, u, m, parent, name, x) && Made(u, t, x, n, parent)
  }

  /** mkdir makes a directory exactly if the name is new, an inode is free, and as many blocks are free as it
      needs, two if the parent's block is full.  The entry then names the inode that lists itself and the
      parent in a block of its own. */
  lemma MkdirMakes(s: Fs, b: Block, es: seq<Entry>, name: Name, parent: nat) returns (x: nat, n: nat)
    requires Shape(s) && OneBlock(s, parent) && Tiled(b, es)
    ensures MkdirCommand(s, b, name, parent).Some?
    ensures var (t, c, ok) := MkdirCommand(s, b, name, parent).value;
      && (ok <==>
            && Unnamed(es, name, |es|) && FreeInode(s).Some?
            && Count(s.bbits, false) >= if HasRoomFor(es, name) then 1 else 2)
      && (ok ==> Entered(s, b, es, name, parent, t, c, x, n))
  {
    hide *;
    NotEmpty(b, es);
    var o := Offset(es, |es| - 1);
    WalkEnds(b, es, name);
    MkdirExactly(s, b, es, name, parent);
    x, n := 0, 0;
    if !Unnamed(es, name, |es|) {
    } else if HasRoomFor(es, name) {
      x, n := MakesHere(s, b, es, name, parent, o);
    } else {
      CommandGrows(s, b, name, parent, o);
      x, n := MakesInNewBlock(s, b, es, name, parent);
    }
  }

  lemma ParentThere(s: Fs, parent: nat)
    requires OneBlock(s, parent)
    ensures parent < |s.table|
  {
  }

  lemma NotEmpty(b: Block, es: seq<Entry>)
    requires Tiled(b, es)
    ensures es != []
  {
  }

  lemma MakesHere(s: Fs, b: Block, es: seq<Entry>, name: Name, parent: nat, o: nat) returns (x: nat, n: nat)
    requires Shape(s) && OneBlock(s, parent) && HasRoomFor(es, name)
    requires LastSearch(b, name, 0) == Last(o) && NewFits(b, o, name)
    requires FreeInode(s).Some? ==>
      && MkdirCommand(s, b, name, parent).Some?
      && Tiled(MkdirCommand(s, b, name, parent).value.1, Appended(es, |es| - 1, name, FreeInode(s).value + 1, FT_DIR))
    ensures MkdirCommand(s, b, name, parent).Some?
    ensures var (t, c, ok) := MkdirCommand(s, b, name, parent).value;
      && (ok <==> FreeInode(s).Some? && Count(s.bbits, false) >= 1)
      && (ok ==> Entered(s, b, es, name, parent, t, c, x, n))
  {
    hide Shape, Tiled, MkdirCommand, MakeDirectory, FreeInode, LastSearch, NewFits, MkdirInsert, Appended, Made, Count;
    CommandInserts(s, b, name, parent, o);
    x, n := MakesDirectory(s, parent);
  }

  lemma MakesInNewBlock(s: Fs, b: Block, es: seq<Entry>, name: Name, parent: nat) returns (x: nat, n: nat)
    requires Shape(s) && OneBlock(s, parent) && !HasRoomFor(es, name)
    ensures var (t, ok) := MkdirInNewBlock(s, name, parent);
      && (ok <==> FreeInode(s).Some? && Count(s.bbits, false) >= 2)
      && (ok ==> Entered(s, b, es, name, parent, t, b, x, n))
  {
    x, n := 0, 0;
    hide Count, Made, HasRoomFor, MakeDirectory, Added, Tiled, Grown, WithEntry;
    FreeCounted(s.bbits);
    var k := LowestClear(s.bbits, 0, |s.bbits|);
    if k < |s.bbits| && FreeInode(s).Some? {
      x := FreeInode(s).value;
      var u := GrowsFirst(s, name, parent, k, x);
      x, n := MakesDirectory(u, parent);
    } else if k < |s.bbits| {
      CountUpdate(s.bbits, k, true, false);
    }
  }

  lemma GrowsFirst(s: Fs, name: Name, parent: nat, k: nat, x: nat) returns (u: Fs)
    requires Shape(s) && OneBlock(s, parent) && k == LowestClear(s.bbits, 0, |s.bbits|) < |s.bbits|
    requires FreeInode(s) == Some(x)
    ensures Shape(u) && parent < |u.table| && Grown(s, u, k + 1, parent, name, x) && FreeInode(u) == Some(x)
    ensures Count(u.bbits, false) + 1 == Count(s.bbits, false)
    ensures MkdirInNewBlock(s, name, parent) == MakeDirectory(u, parent)
  {
    hide Added, Tiled, MakeDirectory;
    CountUpdate(s.bbits, k, true, false);
    var t := Grow(s, parent).0;
    AddToNewBlock(t.blocks[k + 1], name, x + 1, FT_DIR);
    u := WithEntry(t, k + 1, name, x + 1);
  }

  // ---- When it gives up ----

  /** Inode x taken for a directory that has no block: it goes on listing what its block pointers named. */
  ghost predicate TakenOnly(s: Fs, t: Fs, x: nat) {
    && x < |s.table| == |s.ibits| == |t.table| && !s.ibits[x] && (forall i :: s.firstInode <= i < x ==> s.ibits[i])
    && (t.counters.sbInodes + 1) % 0x1_0000_0000 == s.counters.sbInodes
    && (t.counters.gdInodes + 1) % 0x1_0000 == s.counters.gdInodes
    && t == s.(ibits := s.ibits[x := true], table := s.table[x := t.table[x]],
         counters := s.counters.(sbInodes := t.counters.sbInodes, gdInodes := t.counters.gdInodes))
    && t.table[x] == Inode(S_IFDIR, 1024, 0, 2, 2, s.table[x].block)
  }

  /** The parent's second block pointer lost, behind the one that counts. */
  ghost predicate PointerLost(s: Fs, t: Fs, parent: nat) {
    && parent < |s.table| && |s.table[parent].block| == 15
    && t == s.(table := s.table[parent := s.table[parent].(block := s.table[parent].block[1 := 0xFFFF_FFFF])])
  }

  /** The parent given a second block m with a record length of 0 and nothing in it. */
  ghost predicate GrownEmpty(s: Fs, u: Fs, m: nat, parent: nat) {
    && 1 <= m <= |s.bbits| && !s.bbits[m - 1] && (forall i :: 0 <= i < m - 1 ==> s.bbits[i])
    && m < |s.blocks| == |u.blocks| && parent < |s.table| && |s.table[parent].block| == 15
    && u == s.(bbits := s.bbits[m - 1 := true], blocks := s.blocks[m := u.blocks[m]], table := s.table[parent :=
         s.table[parent].(block := s.table[parent].block[1 := m], sectors := s.table[parent].sectors + 2)])
    && u.blocks[m] == s.blocks[m][4 := 0][5 := 0]
  }

  /** `add_directory` without a block. */
  lemma MakesNone(s: Fs, parent: nat) returns (x: nat)
    requires Shape(s) && parent < |s.table| && !MakeDirectory(s, parent).1
    ensures if FreeInode(s).Some? then FreeInode(s) == Some(x) && TakenOnly(s, MakeDirectory(s, parent).0, x)
      else MakeDirectory(s, parent).0 == s
  {
    x := 0;
    if FreeInode(s).Some? {
      x := FreeInode(s).value;
      TakenOnce(s.counters);
    }
  }

  /** What mkdir leaves behind when the name is new, there is room and an inode, but no block: the entry, and
      an inode that lists the block of whoever had it before. */
  lemma MkdirWithoutBlock(s: Fs, b: Block, es: seq<Entry>, name: Name, parent: nat) returns (x: nat, t: Fs, c: Block)
    requires Shape(s) && OneBlock(s, parent) && Tiled(b, es) && Unnamed(es, name, |es|) && HasRoomFor(es, name)
    requires FreeInode(s).Some? && Count(s.bbits, false) == 0
    ensures MkdirCommand(s, b, name, parent) == Some((t, c, false)) && TakenOnly(s, t, x)
    ensures Tiled(c, Appended(es, |es| - 1, name, x + 1, FT_DIR))
  {
    hide *;
    NotEmpty(b, es);
    var o := Offset(es, |es| - 1);
    WalkEnds(b, es, name);
    MkdirExactly(s, b, es, name, parent);
    CommandInserts(s, b, name, parent, o);
    ParentThere(s, parent);
    var y, n := MakesDirectory(s, parent);
    x := MakesNone(s, parent);
    var made := MakeDirectory(s, parent);
    t, c := made.0, MkdirCommand(s, b, name, parent).value.1;
  }

  /** And when there is no room: nothing but a lost pointer if no block is free; an empty block that is not
      counted if no inode is; both if there was one block only. */
  lemma MkdirWithoutRoom(s: Fs, b: Block, es: seq<Entry>, name: Name, parent: nat)
      returns (t: Fs, u: Fs, m: nat, x: nat)
    requires Shape(s) && OneBlock(s, parent) && Tiled(b, es) && Unnamed(es, name, |es|) && !HasRoomFor(es, name)
    requires FreeInode(s) == None || Count(s.bbits, false) < 2
    ensures MkdirCommand(s, b, name, parent) == Some((t, b, false))
    ensures Count(s.bbits, false) == 0 ==> PointerLost(s, t, parent)
    ensures Count(s.bbits, false) > 0 && FreeInode(s) == None ==> GrownEmpty(s, t, m, parent)
    ensures Count(s.bbits, false) > 0 && FreeInode(s).Some? ==> Grown(s, u, m, parent, name, x) && TakenOnly(u, t, x)
  {
    hide *;
    NotEmpty(b, es);
    var o := Offset(es, |es| - 1);
    WalkEnds(b, es, name);
    CommandGrows(s, b, name, parent, o);
    t, u, m, x := NoneInNewBlock(s, name, parent);
  }

  lemma NoneInNewBlock(s: Fs, name: Name, parent: nat) returns (t: Fs, u: Fs, m: nat, x: nat)
    requires Shape(s) && OneBlock(s, parent) && (FreeInode(s) == None || Count(s.bbits, false) < 2)
    ensures MkdirInNewBlock(s, name, parent) == (t, false)
    ensures Count(s.bbits, false) == 0 ==> PointerLost(s, t, parent)
    ensures Count(s.bbits, false) > 0 && FreeInode(s) == None ==> GrownEmpty(s, t, m, parent)
    ensures Count(s.bbits, false) > 0 && FreeInode(s).Some? ==> Grown(s, u, m, parent, name, x) && TakenOnly(u, t, x)
  {
    hide Count, MakeDirectory, Added, Tiled, Grown, WithEntry, TakenOnly;
    t, u, m, x := MkdirInNewBlock(s, name, parent).0, s, 0, 0;
    FreeCounted(s.bbits);
    var k := LowestClear(s.bbits, 0, |s.bbits|);
    if k < |s.bbits| {
      m := k + 1;
      if FreeInode(s).Some? {
        u := GrowsFirst(s, name, parent, k, FreeInode(s).value);
        var y, n := MakesDirectory(u, parent);
        x := MakesNone(u, parent);
      }
    }
  }
}
