/** The consistency tool's procedures in place: `group_counter_inconsis`, the four fixes, `in_list`,
    `check_block` and `main`. */
module RepairDisk {
  import opened Words
  import opened Counting
  import opened DirBlocks
  import opened ByteMaps
  import opened Ext2Model
  import opened Repair
  import opened RepairRuns

  lemma CountMore(bits: seq<bool>, k: nat)
    requires k < |bits|
    ensures Count(bits[..k + 1], false) == Count(bits[..k], false) + if bits[k] then 0 else 1
  {
    assert bits[..k + 1] == bits[..k] + [bits[k]];
    CountAppend(bits[..k], [bits[k]], false);
  }

  class Tool {
    const ibm: array<Byte>
    const bbm: array<Byte>
    const table: array<Inode>
    const blocks: array<Block>
    const dirs: array<seq<Entry>>     // the entries of each directory block
    const firstInode: nat
    var sbFreeBlocks: UInt
    var gdFreeBlocks: UShort
    var sbFreeInodes: UInt
    var gdFreeInodes: UShort
    var seen: seq<int>                // the list of inode numbers, its first element as malloc left it

    constructor (ibm: array<Byte>, bbm: array<Byte>, table: array<Inode>, blocks: array<Block>,
                 dirs: array<seq<Entry>>, firstInode: nat, c: Counters, u: int)
      ensures this.ibm == ibm && this.bbm == bbm && this.table == table && this.blocks == blocks && this.dirs == dirs
      ensures this.firstInode == firstInode && State().counters == c && seen == [u]
    {
      this.ibm, this.bbm, this.table, this.blocks, this.dirs, this.firstInode :=
        ibm, bbm, table, blocks, dirs, firstInode;
      sbFreeBlocks, gdFreeBlocks, sbFreeInodes, gdFreeInodes := c.sbBlocks, c.gdBlocks, c.sbInodes, c.gdInodes;
      seen := [u];
    }

    ghost function State(): Image
      reads this, ibm, bbm, table, blocks, dirs
    {
      Image(Bits(ibm[..]), Bits(bbm[..]), Counters(sbFreeBlocks, gdFreeBlocks, sbFreeInodes, gdFreeInodes),
            table[..], blocks[..], dirs[..], firstInode)
    }

    // ---- Counters ----

    /** The double loop over a bitmap: the clear bits of the first `count` bytes. */
    method CountClear(v: array<Byte>, count: nat) returns (n: nat)
      requires count <= v.Length
      ensures n == Count(Bits(v[..])[..8 * count], false)
    {
      n := 0;
      ghost var bits := Bits(v[..]);
      for i := 0 to count
        invariant n == Count(bits[..8 * i], false)
      {
        for j := 0 to 8
          invariant n == Count(bits[..8 * i + j], false)
        {
          MaskTest(v[i], j);
          CountMore(bits, 8 * i + j);
          assert bits[8 * i + j] == BitAt(v[..], 8 * i + j);
          if And(v[i], Pow2(j)) == 0 {
            n := n + 1;
          }
        }
      }
    }

    /** `group_counter_inconsis`. */
    method GroupCounters() returns (fixes: nat)
      requires Sized(State())
      modifies this`sbFreeBlocks, this`gdFreeBlocks, this`sbFreeInodes, this`gdFreeInodes
      ensures (State(), fixes) == FixCounters(old(State()))
    {
      hide Count, Bits, Difference;
      var inodeFixes := InodeCounters();
      var blockFixes := BlockCounters();
      fixes := inodeFixes + blockFixes;
    }

    /** Its first half. */
    method InodeCounters() returns (fixes: nat)
      requires Sized(State())
      modifies this`sbFreeInodes, this`gdFreeInodes
      ensures sbFreeInodes == FreeInodes(old(State())) && gdFreeInodes == FreeInodes(old(State())) % 0x1_0000
      ensures fixes == Difference(old(sbFreeInodes), FreeInodes(old(State())))
        + Difference(old(gdFreeInodes), FreeInodes(old(State())))
    {
      var inodes := CountClear(ibm, table.Length);
      var diffSb, diffGd := Difference(sbFreeInodes, inodes), Difference(gdFreeInodes, inodes);
      fixes := diffSb + diffGd;
      CountBound(Bits(ibm[..])[..8 * table.Length], false);
      if diffSb != 0 {
        sbFreeInodes := inodes;
      }
      if diffGd != 0 {
        gdFreeInodes := inodes % 0x1_0000;
      }
    }

    /** Its second half. */
    method BlockCounters() returns (fixes: nat)
      requires Sized(State())
      modifies this`sbFreeBlocks, this`gdFreeBlocks
      ensures sbFreeBlocks == FreeBlocks(old(State())) && gdFreeBlocks == FreeBlocks(old(State())) % 0x1_0000
      ensures fixes == Difference(old(sbFreeBlocks), FreeBlocks(old(State())))
        + Difference(old(gdFreeBlocks), FreeBlocks(old(State())))
    {
      var free := CountClear(bbm, blocks.Length);
      var diffSb, diffGd := Difference(sbFreeBlocks, free), Difference(gdFreeBlocks, free);
      fixes := diffSb + diffGd;
      CountBound(Bits(bbm[..])[..8 * blocks.Length], false);
      if diffSb != 0 {
        sbFreeBlocks := free;
      }
      if diffGd != 0 {
        gdFreeBlocks := free % 0x1_0000;
      }
    }

    // ---- The fixes ----

    /** `fix_file_type`. */
    method FixType(n: nat, k: nat) returns (fixed: nat)
      requires Fixable(State(), Slot(n, k))
      modifies blocks, dirs
      ensures (State(), fixed) == Repair.FixType(old(State()), Slot(n, k))
    {
      var e := dirs[n][k];
      var want := TypeOf(table[e.inode - 1].mode);
      fixed := 0;
      if e.fileType != want {
        blocks[n] := TypeByte(blocks[n], dirs[n], k, want);
        dirs[n] := dirs[n][k := e.(fileType := want)];
        fixed := 1;
      }
    }

    /** `fix_inode_bitmap`. */
    method FixInodeBit(x: nat) returns (fixed: nat)
      requires x < 8 * ibm.Length && ibm != bbm
      modifies ibm, this`sbFreeInodes, this`gdFreeInodes
      ensures (State(), fixed) == Repair.FixInodeBit(old(State()), x)
    {
      var valid := TestBit(ibm, x);
      fixed := 0;
      if !valid {
        MakeValid(ibm, x);
        sbFreeInodes, gdFreeInodes := Less(sbFreeInodes, 0x1_0000_0000), Less(gdFreeInodes, 0x1_0000);
        fixed := 1;
      }
    }

    /** `fix_inode_dtime`. */
    method FixDtime(x: nat) returns (fixed: nat)
      requires x < table.Length
      modifies table
      ensures (State(), fixed) == Repair.FixDtime(old(State()), x)
    {
      fixed := 0;
      if table[x].dtime != 0 {
        table[x] := table[x].(dtime := 0);
        fixed := 1;
      }
    }

    /** One turn of the loop in `fix_data_bitmap`, with `set_in_use`. */
    method FixBit(x: nat, i: nat) returns (fixed: nat)
      requires Sized(State()) && Mapped(State(), x) && i < table[x].sectors / 2 && ibm != bbm
      modifies bbm, this`sbFreeBlocks, this`gdFreeBlocks
      ensures Counted(old(State()), x, i)
      ensures (State(), fixed) == Repair.FixBit(old(State()), x, i)
    {
      assert Counted(State(), x, i);
      fixed := 0;
      var e := table[x];
      var bit;
      if i < DIRECT {
        if e.block[i] == 0 {
          return;
        }
        bit := e.block[i] - 1;
      } else if i == DIRECT {
        bit := Pointer(blocks[e.block[DIRECT]], DIRECT);
      } else {
        bit := Pointer(blocks[e.block[DIRECT]], i - 13);
      }
      var valid := TestBit(bbm, bit);
      if !valid {
        MakeValid(bbm, bit);
        sbFreeBlocks, gdFreeBlocks := Less(sbFreeBlocks, 0x1_0000_0000), Less(gdFreeBlocks, 0x1_0000);
        fixed := 1;
      }
    }

    /** `fix_data_bitmap`. */
    method FixBits(x: nat) returns (fixed: nat)
      requires Sized(State()) && Mapped(State(), x) && ibm != bbm
      modifies bbm, this`sbFreeBlocks, this`gdFreeBlocks
      ensures (State(), fixed) == Repair.FixBits(old(State()), x, old(table[x].sectors / 2))
    {
      hide Bits, BitOf, Counted, BitsSet, Kept, Exact;
      fixed := 0;
      ghost var s := State();
      var count := table[x].sectors / 2;
      for i := 0 to count
        invariant (State(), fixed) == Repair.FixBits(s, x, i)
      {
        FixBitsKeeps(s, x, i);
        var one := FixBit(x, i);
        FixBitsNext(s, x, i);
        fixed := fixed + one;
      }
    }

    // ---- The walk ----

    /** `in_list`: whether the number is in the list, which it is afterwards. */
    method InList(inode: int) returns (found: bool)
      requires seen != []
      modifies this`seen
      ensures found <==> inode in old(seen)
      ensures seen == if found then old(seen) else old(seen) + [inode]
    {
      var i := 0;
      while i < |seen| - 1
        invariant 0 <= i < |seen| && seen == old(seen)
        invariant forall j :: 0 <= j < i ==> seen[j] != inode
      {
        if seen[i] == inode {
          return true;
        }
        i := i + 1;
      }
      if seen[i] == inode {
        return true;
      }
      seen := seen + [inode];
      return false;
    }

    /** The first k fixes have been made at the entry, so many of them necessary. */
    ghost predicate Fixing(s: Image, slot: Slot, k: nat, fixed: nat)
      reads this, ibm, bbm, table, blocks, dirs
    {
      ibm != bbm && Fixable(s, slot) && (State(), fixed) == Fixes(s, slot, k)
    }

    /** The sum in `check_block`: all four fixes at an entry. */
    method FixEntry(n: nat, k: nat) returns (fixed: nat)
      requires Fixable(State(), Slot(n, k)) && ibm != bbm
      modifies ibm, bbm, table, blocks, dirs, this`sbFreeBlocks, this`gdFreeBlocks, this`sbFreeInodes, this`gdFreeInodes
      ensures (State(), fixed) == Repair.FixEntry(old(State()), Slot(n, k))
    {
      ghost var s := State();
      fixed := FixNext(n, k, 1, 0, s);
      fixed := FixNext(n, k, 2, fixed, s);
      fixed := FixNext(n, k, 3, fixed, s);
      fixed := FixNext(n, k, 4, fixed, s);
    }

    /** One summand added. */
    method FixNext(n: nat, k: nat, which: nat, before: nat, ghost s: Image) returns (fixed: nat)
      requires 1 <= which <= 4 && Fixing(s, Slot(n, k), which - 1, before)
      modifies ibm, bbm, table, blocks, dirs, this`sbFreeBlocks, this`gdFreeBlocks, this`sbFreeInodes, this`gdFreeInodes
      ensures Fixing(s, Slot(n, k), which, fixed)
    {
      hide Fixes, FixOne, Fixable, Bits;
      FixesStep(s, Slot(n, k), which - 1);
      var one := FixNumber(n, k, which);
      fixed := before + one;
    }

    /** One of the four calls that are added up. */
    method FixNumber(n: nat, k: nat, which: nat) returns (fixed: nat)
      requires Fixable(State(), Slot(n, k)) && ibm != bbm
      modifies ibm, bbm, table, blocks, dirs, this`sbFreeBlocks, this`gdFreeBlocks, this`sbFreeInodes, this`gdFreeInodes
      ensures (State(), fixed) == FixOne(old(State()), Slot(n, k), which)
    {
      var x := dirs[n][k].inode - 1;
      if which == 1 {
        fixed := FixType(n, k);
      } else if which == 2 {
        fixed := FixInodeBit(x);
      } else if which == 3 {
        fixed := FixDtime(x);
      } else {
        fixed := FixBits(x);
      }
    }

    // ---- Where the walk stands ----

    /** The list holds its first element and the inodes of the first j entries of the walk. */
    ghost predicate Listed(u: int, s: Image, slots: seq<Slot>, j: nat)
      reads this`seen
      requires j <= |slots|
    {
      seen != [] && forall v :: v in seen <==> v == u || InodeAmong(s, slots, j, v)
    }

    /** The walk has dealt with the first j entries and fixed so much. */
    ghost predicate Stands(s: Image, u: int, slots: seq<Slot>, j: nat, fixes: nat)
      reads this, ibm, bbm, table, blocks, dirs
    {
      && ibm != bbm && AllFixable(s, slots) && j <= |slots| && Shaped(s)
      && (State(), fixes) == FixSlots(s, u, slots, j) && Listed(u, s, slots, j)
    }

    /** What the walk goes by is as it was. */
    ghost predicate Shaped(s: Image)
      reads table, dirs
    {
      && table.Length == |s.table| && dirs.Length == |s.dirs|
      && (forall n :: 0 <= n < dirs.Length ==> |dirs[n]| == |s.dirs[n]|)
      && (forall x :: 0 <= x < table.Length ==>
            table[x].mode == s.table[x].mode && table[x].sectors == s.table[x].sectors
              && table[x].block == s.table[x].block)
    }

    lemma ShapeStays(s: Image)
      requires SameShape(s, State())
      ensures Shaped(s)
    {
      forall n | 0 <= n < dirs.Length ensures |dirs[n]| == |s.dirs[n]| {
        assert SameEntries(s.dirs[n], State().dirs[n]);
      }
      forall x | 0 <= x < table.Length
        ensures table[x].mode == s.table[x].mode && table[x].sectors == s.table[x].sectors
        ensures table[x].block == s.table[x].block
      {
        SameInode(s, State(), x);
      }
    }

    /** One entry of the walk. */
    method VisitEntry(n: nat, k: nat, fixes: nat, ghost s: Image, ghost u: int, ghost slots: seq<Slot>, ghost j: nat)
        returns (after: nat)
      requires Stands(s, u, slots, j, fixes) && j < |slots| && slots[j] == Slot(n, k) && n < dirs.Length
      requires k < |dirs[n]|
      modifies ibm, bbm, table, blocks, dirs
      modifies this`sbFreeBlocks, this`gdFreeBlocks, this`sbFreeInodes, this`gdFreeInodes, this`seen
      ensures Stands(s, u, slots, j + 1, after)
    {
      hide FixSlots, Fixable, Visited, InodeAt, InodeAmong, Bits;
      InodeNow(s, u, slots, j);
      NextVisit(s, u, slots, j);
      ListNext(s, slots, j);
      var found := InList(dirs[n][k].inode);
      after := FixUnlessSeen(n, k, found, fixes, s, u, slots, j);
    }

    lemma InodeNow(s: Image, u: int, slots: seq<Slot>, j: nat)
      requires AllFixable(s, slots) && j < |slots| && State() == FixSlots(s, u, slots, j).0
      requires slots[j].n < dirs.Length && slots[j].k < |dirs[slots[j].n]|
      ensures dirs[slots[j].n][slots[j].k].inode == InodeAt(s, slots[j])
    {
      FixSlotsKept(s, u, slots, j);
      AllFixableStays(s, State(), slots);
    }

    /** The condition in `check_block`. */
    method FixUnlessSeen(n: nat, k: nat, found: bool, fixes: nat, ghost s: Image, ghost u: int, ghost slots: seq<Slot>,
        ghost j: nat)
        returns (after: nat)
      requires ibm != bbm && AllFixable(s, slots) && j < |slots| && slots[j] == Slot(n, k)
      requires (State(), fixes) == FixSlots(s, u, slots, j) && found == !Visited(s, u, slots, j)
      modifies ibm, bbm, table, blocks, dirs, this`sbFreeBlocks, this`gdFreeBlocks, this`sbFreeInodes, this`gdFreeInodes
      ensures (State(), after) == FixSlots(s, u, slots, j + 1) && Shaped(s)
    {
      hide FixSlots, Repair.FixEntry, Fixable, SameShape, Visited, Bits;
      FixSlotsNext(s, u, slots, j);
      FixSlotsKept(s, u, slots, j + 1);
      after := fixes;
      if !found {
        var fixed := FixEntry(n, k);
        after := fixes + fixed;
      }
      ShapeStays(s);
    }

    /** One directory block. */
    method CheckEntries(n: nat, fixes: nat, ghost s: Image, ghost u: int, ghost slots: seq<Slot>, ghost j: nat)
        returns (after: nat)
      requires Stands(s, u, slots, j, fixes) && n < |s.dirs| && j + |s.dirs[n]| <= |slots|
      requires forall k: nat :: k < |s.dirs[n]| ==> slots[j + k] == Slot(n, k)
      modifies ibm, bbm, table, blocks, dirs
      modifies this`sbFreeBlocks, this`gdFreeBlocks, this`sbFreeInodes, this`gdFreeInodes, this`seen
      ensures Stands(s, u, slots, j + |s.dirs[n]|, after)
    {
      hide FixSlots, AllFixable, InodeAmong, Bits;
      after := fixes;
      var k := 0;
      ghost var p := j;
      while k < |dirs[n]|
        invariant k <= |s.dirs[n]| && p == j + k && Stands(s, u, slots, p, after)
      {
        assert slots[j + k] == Slot(n, k);
        after := VisitEntry(n, k, after, s, u, slots, p);
        k, p := k + 1, p + 1;
      }
    }

    /** `check_block`. */
    method CheckBlock(x: nat, fixes: nat, ghost s: Image, ghost u: int, ghost slots: seq<Slot>, ghost j: nat)
        returns (after: nat)
      requires DirOk(s, x) && Stands(s, u, slots, j, fixes)
      requires j + |InodeSlots(s, x)| <= |slots| && slots[j..j + |InodeSlots(s, x)|] == InodeSlots(s, x)
      modifies ibm, bbm, table, blocks, dirs
      modifies this`sbFreeBlocks, this`gdFreeBlocks, this`sbFreeInodes, this`gdFreeInodes, this`seen
      ensures Stands(s, u, slots, j + |InodeSlots(s, x)|, after)
    {
      hide FixSlots, AllFixable, InodeAmong, Bits, Fixable;
      after := fixes;
      if IsDirectory(table[x].mode) {
        var count := table[x].sectors / 2;
        ghost var p := j;
        for i := 0 to count
          invariant p == j + |DirSlots(s, x, i)| && Stands(s, u, slots, p, after)
        {
          after, p := CheckDirBlock(x, i, after, s, u, slots, j, p);
        }
      }
    }

    /** Its block number i. */
    method CheckDirBlock(x: nat, i: nat, fixes: nat, ghost s: Image, ghost u: int, ghost slots: seq<Slot>,
                         ghost j: nat, ghost p: nat)
        returns (after: nat, ghost q: nat)
      requires DirOk(s, x) && IsDirectory(s.table[x].mode) && i < s.table[x].sectors / 2
      requires p == j + |DirSlots(s, x, i)| && Stands(s, u, slots, p, fixes)
      requires j + |InodeSlots(s, x)| <= |slots| && slots[j..j + |InodeSlots(s, x)|] == InodeSlots(s, x)
      modifies ibm, bbm, table, blocks, dirs
      modifies this`sbFreeBlocks, this`gdFreeBlocks, this`sbFreeInodes, this`gdFreeInodes, this`seen
      ensures q == j + |DirSlots(s, x, i + 1)| && Stands(s, u, slots, q, after)
    {
      hide FixSlots, AllFixable, InodeAmong, Bits, DirSlots, InodeSlots;
      DirSlotsPart(s, x, i, slots, j);
      q := p + |s.dirs[s.table[x].block[i]]|;
      after := CheckEntries(table[x].block[i], fixes, s, u, slots, p);
    }

    /** `main`. */
    method Check() returns (fixes: nat)
      requires Checkable(State()) && |seen| == 1 && ibm != bbm
      modifies this, ibm, bbm, table, blocks, dirs
      ensures (State(), fixes) == RepairRuns.Check(old(State()), old(seen)[0])
    {
      hide FixSlots, AllFixable, Bits, Fixable, AllSlots, Walks;
      ghost var u := seen[0];
      CountersShape(State());
      CheckableStays(State(), FixCounters(State()).0);
      var counters := GroupCounters();
      var more := CheckInodes(u);
      fixes := counters + more;
    }

    /** The root directory, then the inodes one after the other. */
    method CheckInodes(ghost u: int) returns (fixes: nat)
      requires Checkable(State()) && seen == [u] && ibm != bbm
      modifies ibm, bbm, table, blocks, dirs
      modifies this`sbFreeBlocks, this`gdFreeBlocks, this`sbFreeInodes, this`gdFreeInodes, this`seen
      ensures var s := old(State()); (State(), fixes) == FixSlots(s, u, AllSlots(s), |AllSlots(s)|)
    {
      hide FixSlots, AllFixable, InodeAmong, Bits, SlotsBefore, InodeSlots, DirOk, Fixable;
      ghost var s := State();
      ghost var slots := AllSlots(s);
      ghost var p;
      fixes, p := CheckRoot(u);
      var x := firstInode;
      while x < table.Length - 1
        invariant table.Length == |s.table| && firstInode == s.firstInode <= x <= LastInode(s)
        invariant p == |SlotsBefore(s, x)| && Stands(s, u, slots, p, fixes)
      {
        fixes, p := CheckInode(x, fixes, s, u, p);
        x := x + 1;
      }
    }

    /** The call for the root directory. */
    method CheckRoot(ghost u: int) returns (fixes: nat, ghost p: nat)
      requires Checkable(State()) && seen == [u] && ibm != bbm
      modifies ibm, bbm, table, blocks, dirs
      modifies this`sbFreeBlocks, this`gdFreeBlocks, this`sbFreeInodes, this`gdFreeInodes, this`seen
      ensures var s := old(State()); p == |SlotsBefore(s, firstInode)| && Stands(s, u, AllSlots(s), p, fixes)
    {
      ghost var s := State();
      SlotsPrefix(s, firstInode);
      StartStands(u);
      p := |InodeSlots(s, 1)|;
      fixes := CheckBlock(1, 0, s, u, AllSlots(s), 0);
    }

    /** One turn of that loop. */
    method CheckInode(x: nat, fixes: nat, ghost s: Image, ghost u: int, ghost p: nat) returns (after: nat, ghost q: nat)
      requires Walks(s) && s.firstInode <= x < LastInode(s)
      requires p == |SlotsBefore(s, x)| && Stands(s, u, AllSlots(s), p, fixes)
      modifies ibm, bbm, table, blocks, dirs
      modifies this`sbFreeBlocks, this`gdFreeBlocks, this`sbFreeInodes, this`gdFreeInodes, this`seen
      ensures q == |SlotsBefore(s, x + 1)| && Stands(s, u, AllSlots(s), q, after)
    {
      hide FixSlots, AllFixable, InodeAmong, Bits, SlotsBefore, InodeSlots, AllSlots;
      SlotsPrefix(s, x + 1);
      q := p + |InodeSlots(s, x)|;
      after := CheckBlock(x, fixes, s, u, AllSlots(s), p);
    }

    lemma StartStands(u: int)
      requires Checkable(State()) && seen == [u] && ibm != bbm
      ensures Stands(State(), u, AllSlots(State()), 0, 0)
    {
      KeptSelf(State());
      ShapeStays(State());
    }
  }

  lemma {:induction false} BeforePrefix(s: Image, x: nat, y: nat)
    requires s.firstInode <= x <= y <= LastInode(s) && Walks(s)
    ensures SlotsBefore(s, x) <= SlotsBefore(s, y)
    decreases y
  {
    if x < y { BeforePrefix(s, x, y - 1); }
  }

  /** The part of the walk before inode x, and its last inode's part. */
  lemma SlotsPrefix(s: Image, x: nat)
    requires s.firstInode <= x <= LastInode(s) && Walks(s)
    ensures SlotsBefore(s, x) <= AllSlots(s)
    ensures x == s.firstInode ==> SlotsBefore(s, x) == InodeSlots(s, 1) && InodeSlots(s, 1) <= AllSlots(s)
    ensures x > s.firstInode ==>
      var j := |SlotsBefore(s, x - 1)|;
      j + |InodeSlots(s, x - 1)| == |SlotsBefore(s, x)| <= |AllSlots(s)|
      && AllSlots(s)[j..j + |InodeSlots(s, x - 1)|] == InodeSlots(s, x - 1)
  {
    hide InodeSlots, DirOk;
    BeforePrefix(s, x, LastInode(s));
  }

  lemma {:induction false} DirSlotsPrefix(s: Image, x: nat, i: nat, m: nat)
    requires DirOk(s, x) && IsDirectory(s.table[x].mode) && i <= m <= s.table[x].sectors / 2
    ensures DirSlots(s, x, i) <= DirSlots(s, x, m)
  {
    if i < m { DirSlotsPrefix(s, x, i, m - 1); }
  }

  /** The entries of block number i of a directory, where they stand in the walk. */
  lemma DirSlotsPart(s: Image, x: nat, i: nat, slots: seq<Slot>, j: nat)
    requires DirOk(s, x) && IsDirectory(s.table[x].mode) && i < s.table[x].sectors / 2
    requires j + |InodeSlots(s, x)| <= |slots| && slots[j..j + |InodeSlots(s, x)|] == InodeSlots(s, x)
    ensures var n := s.table[x].block[i]; var p := j + |DirSlots(s, x, i)|;
      && n < |s.dirs| && p + |s.dirs[n]| == j + |DirSlots(s, x, i + 1)| <= |slots|
      && forall k: nat :: k < |s.dirs[n]| ==> slots[p + k] == Slot(n, k)
  {
    var m := s.table[x].sectors / 2;
    DirSlotsPrefix(s, x, i + 1, m);
    var n, p := s.table[x].block[i], |DirSlots(s, x, i)|;
    forall k: nat | k < |s.dirs[n]| ensures slots[j + p + k] == Slot(n, k) {
      assert slots[j..j + |InodeSlots(s, x)|][p + k] == DirSlots(s, x, m)[p + k] == DirSlots(s, x, i + 1)[p + k];
    }
  }

  ghost predicate InodeAmong(s: Image, slots: seq<Slot>, j: nat, v: int)
    requires j <= |slots|
  {
    exists i :: 0 <= i < j && InodeAt(s, slots[i]) == v
  }

  lemma ListNext(s: Image, slots: seq<Slot>, j: nat)
    requires j < |slots|
    ensures forall v :: InodeAmong(s, slots, j + 1, v) <==> InodeAmong(s, slots, j, v) || v == InodeAt(s, slots[j])
  {
    forall v ensures InodeAmong(s, slots, j + 1, v) <==> InodeAmong(s, slots, j, v) || v == InodeAt(s, slots[j]) {
      if v == InodeAt(s, slots[j]) { assert InodeAt(s, slots[j]) == v; }
      if InodeAmong(s, slots, j, v) { var i :| 0 <= i < j && InodeAt(s, slots[i]) == v; }
    }
  }

  lemma NextVisit(s: Image, u: int, slots: seq<Slot>, j: nat)
    requires j < |slots|
    ensures Visited(s, u, slots, j) <==> InodeAt(s, slots[j]) != u && !InodeAmong(s, slots, j, InodeAt(s, slots[j]))
  {
  }

  lemma FixesStep(s: Image, slot: Slot, k: nat)
    requires Fixable(s, slot) && k < 4
    ensures var (t, fixes) := Fixes(s, slot, k);
      && Fixable(t, slot) && InodeAt(t, slot) == InodeAt(s, slot)
      && Fixes(s, slot, k + 1) == (FixOne(t, slot, k + 1).0, fixes + FixOne(t, slot, k + 1).1)
  {
    hide FixOne, SameShape;
    FixesKept(s, slot, k);
    KeptFixable(s, Fixes(s, slot, k).0, slot);
  }

  lemma FixBitsNext(s: Image, x: nat, i: nat)
    requires Sized(s) && Mapped(s, x) && i < s.table[x].sectors / 2
    ensures Counted(s, x, i) && BitOf(Repair.FixBits(s, x, i).0, x, i) == BitOf(s, x, i)
    ensures var (t, fixes) := Repair.FixBits(s, x, i); var (u, one) := Repair.FixBit(t, x, i);
      Repair.FixBits(s, x, i + 1) == (u, fixes + one)
  {
    assert Counted(s, x, i);
  }
}
