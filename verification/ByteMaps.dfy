/** The inode and block bitmaps, byte-packed: `valid_inode`, `free_block`, `make_inode_valid`,
    `make_inode_invalid` and the two searches.  They refine sequences of booleans. */
module ByteMaps {
  import opened Words
  import opened DirBlocks

  /** Bit k of a packed sequence of bytes. */
  ghost predicate BitAt(v: seq<Byte>, k: nat) {
    k / 8 < |v| && Bit(v[k / 8], k % 8)
  }

  ghost function Bits(v: seq<Byte>): (u: seq<bool>)
    ensures |u| == 8 * |v|
  {
    seq(8 * |v|, k requires 0 <= k => BitAt(v, k))
  }

  lemma ByteRange(w: Byte, o: nat)
    requires o < 8
    ensures Or(w, Pow2(o)) < 256 && AndNot(w, Pow2(o)) < 256
  {
    assert Pow2(8) == 256;
    Pow2Monotone(o, 8);
    OrBound(w, Pow2(o), 8);
    AndNotBound(w, Pow2(o));
  }

  lemma SetPacked(v: seq<Byte>, k: nat, w: Byte)
    requires k < 8 * |v| && w == Or(v[k / 8], Pow2(k % 8))
    ensures Bits(v[k / 8 := w]) == Bits(v)[k := true]
  {
    var u := v[k / 8 := w];
    forall j | 0 <= j < 8 * |v| ensures Bits(u)[j] == Bits(v)[k := true][j] {
      SetBit(v[k / 8], k % 8, j % 8);
      assert Bits(u)[j] == BitAt(u, j) && Bits(v)[j] == BitAt(v, j);
    }
  }

  lemma ClearPacked(v: seq<Byte>, k: nat, w: Byte)
    requires k < 8 * |v| && w == AndNot(v[k / 8], Pow2(k % 8))
    ensures Bits(v[k / 8 := w]) == Bits(v)[k := false]
  {
    var u := v[k / 8 := w];
    forall j | 0 <= j < 8 * |v| ensures Bits(u)[j] == Bits(v)[k := false][j] {
      ClearBit(v[k / 8], k % 8, j % 8);
      assert Bits(u)[j] == BitAt(u, j) && Bits(v)[j] == BitAt(v, j);
    }
  }

  /** `valid_inode` (and `valid_inodeV2`). */
  method ValidInode(block: Byte, index: nat) returns (r: bool)
    ensures r == Bit(block, index)
  {
    MaskTest(block, index);
    AndSwap(Pow2(index), block);
    r := And(Pow2(index), block) != 0;
  }

  lemma {:induction false} AndSwap(a: nat, b: nat)
    ensures And(a, b) == And(b, a)
    decreases a + b
  {
    if a != 0 || b != 0 { AndSwap(a / 2, b / 2); }
  }

  /** `free_block`. */
  method FreeBlock(block: Byte, index: nat) returns (r: bool)
    ensures r == !Bit(block, index)
  {
    var mask := AndNot(Pow2(index), block);
    AndNotBit(Pow2(index), block, index);
    Pow2Bit(index, index);
    if mask != 0 {
      var j := NonzeroHasBit(mask);
      AndNotBit(Pow2(index), block, j);
      Pow2Bit(j, index);
    } else {
      ZeroHasNoBits(index);
    }
    r := mask != 0;
  }

  method TestBit(v: array<Byte>, k: nat) returns (r: bool)
    requires k < 8 * v.Length
    ensures r == Bits(v[..])[k]
  {
    r := ValidInode(v[k / 8], k % 8);
  }

  /** `make_inode_valid` on the byte that holds bit k. */
  method MakeValid(v: array<Byte>, k: nat)
    requires k < 8 * v.Length
    modifies v
    ensures Bits(v[..]) == Bits(old(v[..]))[k := true]
  {
    ByteRange(v[k / 8], k % 8);
    SetPacked(v[..], k, Or(v[k / 8], Pow2(k % 8)));
    v[k / 8] := Or(v[k / 8], Pow2(k % 8));
    assert v[..] == old(v[..])[k / 8 := v[k / 8]];
  }

  /** `make_inode_invalid` on the byte that holds bit k. */
  method MakeInvalid(v: array<Byte>, k: nat)
    requires k < 8 * v.Length
    modifies v
    ensures Bits(v[..]) == Bits(old(v[..]))[k := false]
  {
    ByteRange(v[k / 8], k % 8);
    ClearPacked(v[..], k, AndNot(v[k / 8], Pow2(k % 8)));
    v[k / 8] := AndNot(v[k / 8], Pow2(k % 8));
    assert v[..] == old(v[..])[k / 8 := v[k / 8]];
  }

  /** The lowest clear bit in a range, or the end of the range. */
  function LowestClear(bits: seq<bool>, from: nat, end: nat): (k: nat)
    requires from <= end <= |bits|
    ensures from <= k <= end && (k < end ==> !bits[k])
    ensures forall i :: from <= i < k ==> bits[i]
    decreases end - from
  {
    if from == end || !bits[from] then from else LowestClear(bits, from + 1, end)
  }

  lemma LowestClearIs(bits: seq<bool>, from: nat, end: nat, k: nat)
    requires from <= k <= end <= |bits| && (k < end ==> !bits[k])
    requires forall i :: from <= i < k ==> bits[i]
    ensures LowestClear(bits, from, end) == k
  {
  }

  /** `find_free_block_index` from block 1 on: the lowest free block, which is marked, or -1. */
  method FindFreeBlock(v: array<Byte>, blockCount: nat) returns (n: int)
    requires 1 <= blockCount <= 8 * v.Length + 1
    modifies v
    ensures var bits := Bits(old(v[..])); var k := LowestClear(bits, 0, blockCount - 1);
      if k < blockCount - 1 then n == k + 1 && Bits(v[..]) == bits[k := true] else n == -1 && Bits(v[..]) == bits
  {
    ghost var bits := Bits(v[..]);
    for i := 1 to blockCount
      invariant Bits(v[..]) == bits
      invariant forall j :: 0 <= j < i - 1 ==> bits[j]
    {
      var offset, index := (i - 1) % 8, (i - 1) / 8;
      var free := FreeBlock(v[index], offset);
      if free {
        assert !bits[i - 1];
        LowestClearIs(bits, 0, blockCount - 1, i - 1);
        MakeValid(v, i - 1);
        return index * 8 + offset + 1;
      }
      assert bits[i - 1];
    }
    LowestClearIs(bits, 0, blockCount - 1, blockCount - 1);
    n := -1;
  }

  /** `find_invalid_indode_index`: the lowest free inode number in the range, or -1. */
  method FindInvalidInode(v: array<Byte>, firstInode: nat, inodeCount: nat) returns (n: int)
    requires 1 <= firstInode <= inodeCount <= 8 * v.Length + 1
    ensures var k := LowestClear(Bits(v[..]), firstInode - 1, inodeCount - 1);
      n == if k < inodeCount - 1 then k + 1 else -1
  {
    ghost var bits := Bits(v[..]);
    for i := firstInode to inodeCount
      invariant forall j :: firstInode - 1 <= j < i - 1 ==> bits[j]
    {
      var offset, index := (i - 1) % 8, (i - 1) / 8;
      var valid := ValidInode(v[index], offset);
      assert valid == bits[i - 1];
      if !valid {
        LowestClearIs(bits, firstInode - 1, inodeCount - 1, i - 1);
        return index * 8 + offset + 1;
      }
    }
    LowestClearIs(bits, firstInode - 1, inodeCount - 1, inodeCount - 1);
    n := -1;
  }
}
