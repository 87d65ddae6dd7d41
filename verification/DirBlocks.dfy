/** A directory block byte by byte: entries laid end to end by their `rec_len`, stale bytes in the
    gaps.  The block refines a list of entries; inserting, deleting and undeleting are a few byte
    writes. */
module DirBlocks {

  const BLOCK_SIZE: nat := 1024     // EXT2_BLOCK_SIZE
  const HEADER: nat := 8            // sizeof(struct ext2_dir_entry)
  const FT_UNKNOWN: nat := 0
  const FT_REG_FILE: nat := 1
  const FT_DIR: nat := 2
  const FT_SYMLINK: nat := 7

  type Byte = n: nat | n < 256
  type Name = s: seq<Byte> | |s| < 256

  datatype Entry = Entry(inode: nat, recLen: nat, fileType: nat, name: Name)

  // ---- Fields ----

  function U16(b: seq<Byte>, o: nat): (v: nat)
    requires o + 2 <= |b|
    ensures v < 0x1_0000
  {
    b[o] as nat + 256 * (b[o + 1] as nat)
  }

  /** Little-endian, truncated to 16 bits as the assignment to an `unsigned short` is. */
  function Put16(b: seq<Byte>, o: nat, v: nat): (c: seq<Byte>)
    requires o + 2 <= |b|
    ensures |c| == |b| && U16(c, o) == v % 0x1_0000
    ensures forall i :: 0 <= i < |b| && !(o <= i < o + 2) ==> c[i] == b[i]
  {
    TwoDigits(v);
    b[o := v % 256][o + 1 := v / 256 % 256]
  }

  lemma TwoDigits(v: nat)
    ensures v % 256 + 256 * (v / 256 % 256) == v % 0x1_0000
  {
    var q := v / 256;
    LowPart(v, q / 256, q % 256, v % 256);
  }

  lemma LowPart(v: nat, r: nat, b: nat, a: nat)
    requires a < 256 && b < 256 && v == 0x1_0000 * r + 256 * b + a
    ensures v % 0x1_0000 == 256 * b + a
  {
  }

  function U32(b: seq<Byte>, o: nat): (v: nat)
    requires o + 4 <= |b|
    ensures v < 0x1_0000_0000
  {
    b[o] as nat + 0x100 * (b[o + 1] as nat) + 0x1_0000 * (b[o + 2] as nat) + 0x100_0000 * (b[o + 3] as nat)
  }

  function Put32(b: seq<Byte>, o: nat, v: nat): (c: seq<Byte>)
    requires o + 4 <= |b|
    ensures |c| == |b|
    ensures forall i :: 0 <= i < |b| && !(o <= i < o + 4) ==> c[i] == b[i]
  {
    b[o := v % 256][o + 1 := v / 0x100 % 256][o + 2 := v / 0x1_0000 % 256][o + 3 := v / 0x100_0000 % 256]
  }

  lemma Put32Value(b: seq<Byte>, o: nat, v: nat)
    requires o + 4 <= |b| && v < 0x1_0000_0000
    ensures U32(Put32(b, o, v), o) == v
  {
    var c := Put32(b, o, v);
    assert c[o] == v % 256 && c[o + 1] == v / 0x100 % 256 && c[o + 2] == v / 0x1_0000 % 256
      && c[o + 3] == v / 0x100_0000 % 256;
    FourDigits(v);
  }

  lemma FourDigits(v: nat)
    requires v < 0x1_0000_0000
    ensures v
      == v % 256 + 0x100 * (v / 0x100 % 256) + 0x1_0000 * (v / 0x1_0000 % 256) + 0x100_0000 * (v / 0x100_0000 % 256)
  {
    var x := v / 0x100;
    var y := x / 0x100;
    assert v / 0x1_0000 == y && v / 0x100_0000 == y / 0x100;
  }

  /** Writing back the value read changes no byte. */
  lemma Put16Same(b: seq<Byte>, o: nat)
    requires o + 2 <= |b|
    ensures Put16(b, o, U16(b, o)) == b
  {
  }

  lemma Put16Twice(b: seq<Byte>, o: nat, v: nat, w: nat)
    requires o + 2 <= |b|
    ensures Put16(Put16(b, o, v), o, w) == Put16(b, o, w)
  {
  }

  /** A sequence written over part of a block. */
  function PutBytes(b: seq<Byte>, o: nat, s: seq<Byte>): (c: seq<Byte>)
    requires o + |s| <= |b|
    ensures |c| == |b| && c[o..o + |s|] == s
    ensures forall i :: 0 <= i < |b| && !(o <= i < o + |s|) ==> c[i] == b[i]
  {
    b[..o] + s + b[o + |s|..]
  }

  // ---- Entries ----

  predicate Readable(b: seq<Byte>, o: nat) {
    o + HEADER <= |b| && o + HEADER + b[o + 6] <= |b|
  }

  function EntryAt(b: seq<Byte>, o: nat): Entry
    requires Readable(b, o)
  {
    Entry(U32(b, o), U16(b, o + 4), b[o + 7], b[o + HEADER..o + HEADER + b[o + 6]])
  }

  /** `pad_rec_len`. */
  function Padded(n: nat): (p: nat)
    ensures p % 4 == 0 && n <= p < n + 4
  {
    if n % 4 != 0 then n + (4 - n % 4) else n
  }

  /** The least room an entry with this name takes. */
  function Tight(name: Name): (t: nat)
    ensures t % 4 == 0 && HEADER + |name| <= t < HEADER + 260
  {
    Padded(HEADER + |name|)
  }

  /** A record length an entry may have. */
  predicate Fits(e: Entry) {
    e.recLen % 4 == 0 && HEADER + |e.name| <= e.recLen <= BLOCK_SIZE
  }

  predicate AllFit(es: seq<Entry>) {
    forall i :: 0 <= i < |es| ==> Fits(es[i])
  }

  /** The entries es lie end to end from offset `from` to offset `to`. */
  ghost predicate Laid(b: seq<Byte>, from: nat, to: nat, es: seq<Entry>)
    decreases |es|
  {
    if es == [] then from == to
    else Readable(b, from) && EntryAt(b, from) == es[0] && Laid(b, from + es[0].recLen, to, es[1..])
  }

  /** The block is exactly filled by these entries. */
  ghost predicate Tiled(b: seq<Byte>, es: seq<Entry>) {
    |b| == BLOCK_SIZE && es != [] && AllFit(es) && Laid(b, 0, BLOCK_SIZE, es)
  }

  /** Where the entry with index k starts. */
  function Offset(es: seq<Entry>, k: nat): nat
    requires k <= |es|
  {
    if k == 0 then 0 else es[0].recLen + Offset(es[1..], k - 1)
  }

  lemma {:induction false} OffsetStep(es: seq<Entry>, k: nat)
    requires k < |es|
    ensures Offset(es, k + 1) == Offset(es, k) + es[k].recLen
  {
    if k > 0 { OffsetStep(es[1..], k - 1); }
  }

  lemma {:induction false} LaidEnd(b: seq<Byte>, from: nat, to: nat, es: seq<Entry>)
    requires Laid(b, from, to, es)
    ensures to == from + Offset(es, |es|)
    decreases |es|
  {
    if es != [] { LaidEnd(b, from + es[0].recLen, to, es[1..]); }
  }

  /** The entries up to index k, entry k and the rest, each where it lies. */
  lemma {:induction false} LaidSplit(b: seq<Byte>, from: nat, to: nat, es: seq<Entry>, k: nat)
    requires Laid(b, from, to, es) && k <= |es|
    ensures Laid(b, from, from + Offset(es, k), es[..k]) && Laid(b, from + Offset(es, k), to, es[k..])
    decreases |es|
  {
    hide Readable, EntryAt;
    if k > 0 {
      LaidSplit(b, from + es[0].recLen, to, es[1..], k - 1);
      assert es[..k][1..] == es[1..][..k - 1] && es[1..][k - 1..] == es[k..];
    } else {
      assert es[k..] == es;
    }
  }

  lemma {:induction false} LaidJoin(b: seq<Byte>, from: nat, mid: nat, to: nat, es: seq<Entry>, fs: seq<Entry>)
    requires Laid(b, from, mid, es) && Laid(b, mid, to, fs)
    ensures Laid(b, from, to, es + fs)
    decreases |es|
  {
    if es == [] {
      assert es + fs == fs;
    } else {
      var all := es + fs;
      assert all[1..] == es[1..] + fs && all[0] == es[0];
      LaidJoin(b, from + es[0].recLen, mid, to, es[1..], fs);
    }
  }

  /** Bytes outside the stretch do not matter. */
  lemma {:induction false} LaidFrame(b: seq<Byte>, c: seq<Byte>, from: nat, to: nat, es: seq<Entry>)
    requires Laid(b, from, to, es) && AllFit(es) && |b| == |c| && to <= |b|
    requires forall i :: from <= i < to ==> b[i] == c[i]
    ensures Laid(c, from, to, es)
    decreases |es|
  {
    if es != [] {
      LaidEnd(b, from + es[0].recLen, to, es[1..]);
      assert Fits(es[0]);
      assert EntryAt(c, from) == EntryAt(b, from);
      LaidFrame(b, c, from + es[0].recLen, to, es[1..]);
    }
  }

  lemma LaidOne(b: seq<Byte>, from: nat, e: Entry)
    requires Readable(b, from) && EntryAt(b, from) == e
    ensures Laid(b, from, from + e.recLen, [e])
  {
    assert [e][1..] == [];
  }

  /** Entry k of a tiled block can be read where it should be, and ends within the block. */
  lemma EntryThere(b: seq<Byte>, es: seq<Entry>, k: nat)
    requires Tiled(b, es) && k < |es|
    ensures Readable(b, Offset(es, k)) && EntryAt(b, Offset(es, k)) == es[k]
    ensures Offset(es, k) + es[k].recLen == Offset(es, k + 1) <= BLOCK_SIZE
    ensures k + 1 == |es| ==> Offset(es, k + 1) == BLOCK_SIZE
  {
    hide Fits;
    LaidSplit(b, 0, BLOCK_SIZE, es, k);
    OffsetStep(es, k);
    LaidSplit(b, 0, BLOCK_SIZE, es, k + 1);
    LaidEnd(b, Offset(es, k + 1), BLOCK_SIZE, es[k + 1..]);
    assert es[k..][0] == es[k];
    LaidEnd(b, 0, BLOCK_SIZE, es);
  }

  /** A block is tiled in one way only. */
  lemma {:induction false} LaidOnce(b: seq<Byte>, from: nat, es: seq<Entry>, fs: seq<Entry>)
    requires Laid(b, from, BLOCK_SIZE, es) && Laid(b, from, BLOCK_SIZE, fs) && AllFit(es) && AllFit(fs)
    ensures es == fs
    decreases |es|
  {
    LaidShort(b, from, es);
    LaidShort(b, from, fs);
    if es != [] && fs != [] { LaidOnce(b, from + es[0].recLen, es[1..], fs[1..]); }
  }

  lemma LaidShort(b: seq<Byte>, from: nat, es: seq<Entry>)
    requires Laid(b, from, BLOCK_SIZE, es) && AllFit(es)
    ensures if es == [] then from == BLOCK_SIZE else from < BLOCK_SIZE
  {
    LaidEnd(b, from, BLOCK_SIZE, es);
    if es != [] { assert Fits(es[0]); }
  }
}
