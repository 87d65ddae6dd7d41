/** The edits the tools make to a directory block: the split that appends an entry (`add_directory`,
    `add_file_loc`, `new_directory_fits`), the merge that deletes one (`remove_file`) and the split
    that brings it back (`restore_file`). */
module DirEdits {
  import opened DirBlocks

  // ---- Writing an entry ----

  /** The assignments to a new entry's fields. */
  function PutEntry(b: seq<Byte>, o: nat, e: Entry): (c: seq<Byte>)
    requires o + HEADER + |e.name| <= |b|
    ensures |c| == |b|
    ensures forall i :: 0 <= i < |b| && !(o <= i < o + HEADER + |e.name|) ==> c[i] == b[i]
  {
    var named := PutBytes(b, o + HEADER, e.name)[o + 6 := |e.name|][o + 7 := e.fileType % 256];
    Put16(Put32(named, o, e.inode), o + 4, e.recLen)
  }

  lemma PutEntryReads(b: seq<Byte>, o: nat, e: Entry)
    requires o + HEADER + |e.name| <= |b| && e.inode < 0x1_0000_0000 && e.recLen < 0x1_0000 && e.fileType < 256
    ensures Readable(PutEntry(b, o, e), o) && EntryAt(PutEntry(b, o, e), o) == e
  {
    var named := PutBytes(b, o + HEADER, e.name)[o + 6 := |e.name|][o + 7 := e.fileType % 256];
    NameReads(b, o, e.name, e.fileType);
    Put32Value(named, o, e.inode);
    FieldsRead(named, Put32(named, o, e.inode), o, e);
  }

  lemma NameReads(b: seq<Byte>, o: nat, name: Name, fileType: nat)
    requires o + HEADER + |name| <= |b|
    ensures var c := PutBytes(b, o + HEADER, name)[o + 6 := |name|][o + 7 := fileType % 256];
      |c| == |b| && c[o + 6] == |name| && c[o + 7] == fileType % 256 && c[o + HEADER..o + HEADER + |name|] == name
  {
    var placed := PutBytes(b, o + HEADER, name);
    var c := placed[o + 6 := |name|][o + 7 := fileType % 256];
    assert c[o + HEADER..o + HEADER + |name|] == placed[o + HEADER..o + HEADER + |name|];
  }

  /** The record length goes in last. */
  lemma FieldsRead(named: seq<Byte>, w: seq<Byte>, o: nat, e: Entry)
    requires o + HEADER + |e.name| <= |named| == |w| && e.recLen < 0x1_0000 && U32(w, o) == e.inode
    requires named[o + 6] == |e.name| && named[o + 7] == e.fileType
    requires named[o + HEADER..o + HEADER + |e.name|] == e.name
    requires forall i :: 0 <= i < |named| && !(o <= i < o + 4) ==> w[i] == named[i]
    ensures Readable(Put16(w, o + 4, e.recLen), o) && EntryAt(Put16(w, o + 4, e.recLen), o) == e
  {
    assert w[o + HEADER..o + HEADER + |e.name|] == named[o + HEADER..o + HEADER + |e.name|];
    assert Readable(w, o) && EntryAt(w, o) == e.(recLen := U16(w, o + 4));
    Put16Entry(w, o, e.recLen);
  }

  /** A new record length for the entry at o leaves its other fields alone. */
  lemma Put16Entry(b: seq<Byte>, o: nat, len: nat)
    requires Readable(b, o) && len < 0x1_0000
    ensures var c := Put16(b, o + 4, len); Readable(c, o) && EntryAt(c, o) == EntryAt(b, o).(recLen := len)
  {
    var c := Put16(b, o + 4, len);
    assert c[o + HEADER..o + HEADER + b[o + 6]] == b[o + HEADER..o + HEADER + b[o + 6]];
  }

  lemma SameEntry(b: seq<Byte>, c: seq<Byte>, o: nat)
    requires Readable(b, o) && |c| == |b| && forall i :: o <= i < o + HEADER + b[o + 6] ==> c[i] == b[i]
    ensures Readable(c, o) && EntryAt(c, o) == EntryAt(b, o)
  {
    assert c[o + HEADER..o + HEADER + b[o + 6]] == b[o + HEADER..o + HEADER + b[o + 6]];
  }

  // ---- Changing one record length ----

  /** Entry j takes over the room of the entries up to index m. */
  ghost function Absorbed(es: seq<Entry>, j: nat, m: nat): seq<Entry>
    requires j < m <= |es| && Offset(es, j) <= Offset(es, m)
  {
    es[..j] + [es[j].(recLen := Offset(es, m) - Offset(es, j))] + es[m..]
  }

  lemma {:induction false} OffsetGrows(es: seq<Entry>, j: nat, m: nat)
    requires j <= m <= |es|
    ensures Offset(es, j) <= Offset(es, m)
  {
    if j > 0 { OffsetGrows(es[1..], j - 1, m - 1); }
  }

  lemma OffsetBound(b: seq<Byte>, es: seq<Entry>, m: nat)
    requires Tiled(b, es) && m <= |es|
    ensures Offset(es, m) <= BLOCK_SIZE
  {
    LaidEnd(b, 0, BLOCK_SIZE, es);
    OffsetGrows(es, m, |es|);
  }

  lemma {:induction false} OffsetAligned(es: seq<Entry>, k: nat)
    requires AllFit(es) && k <= |es|
    ensures Offset(es, k) % 4 == 0
  {
    if k > 0 {
      assert Fits(es[0]);
      OffsetAligned(es[1..], k - 1);
    }
  }

  lemma AbsorbFits(es: seq<Entry>, j: nat, m: nat)
    requires AllFit(es) && j < m <= |es| && Offset(es, m) <= BLOCK_SIZE
    ensures Offset(es, j) <= Offset(es, m) && AllFit(Absorbed(es, j, m))
  {
    OffsetGrows(es, j + 1, m);
    OffsetStep(es, j);
    AbsorberFits(es, j, m);
    forall i | 0 <= i < |Absorbed(es, j, m)| ensures Fits(Absorbed(es, j, m)[i]) {
      if i > j { assert Absorbed(es, j, m)[i] == es[m + i - j - 1]; }
    }
  }

  lemma AbsorberFits(es: seq<Entry>, j: nat, m: nat)
    requires AllFit(es) && j < m <= |es| && Offset(es, m) <= BLOCK_SIZE && Offset(es, j) + es[j].recLen <= Offset(es, m)
    ensures Fits(es[j].(recLen := Offset(es, m) - Offset(es, j)))
  {
    OffsetAligned(es, j);
    OffsetAligned(es, m);
    assert Fits(es[j]);
  }

  /** A stretch, one entry, and a stretch. */
  lemma LaidAround(c: seq<Byte>, before: seq<Entry>, p: nat, e: Entry, q: nat, after: seq<Entry>)
    requires |c| == BLOCK_SIZE && Laid(c, 0, p, before) && Laid(c, q, BLOCK_SIZE, after)
    requires Readable(c, p) && EntryAt(c, p) == e && q == p + e.recLen
    ensures Laid(c, 0, BLOCK_SIZE, before + [e] + after)
  {
    LaidOne(c, p, e);
    LaidJoin(c, 0, p, q, before, [e]);
    LaidJoin(c, 0, q, BLOCK_SIZE, before + [e], after);
  }

  lemma AbsorbLaid(b: seq<Byte>, es: seq<Entry>, j: nat, m: nat)
    requires Tiled(b, es) && j < m <= |es|
    ensures Offset(es, j) <= Offset(es, m) <= BLOCK_SIZE && Offset(es, j) + 6 <= |b|
    ensures Tiled(Put16(b, Offset(es, j) + 4, Offset(es, m) - Offset(es, j)), Absorbed(es, j, m))
  {
    hide Laid, Offset, EntryAt, Readable, AllFit;
    OffsetGrows(es, j, m);
    OffsetGrows(es, j + 1, m);
    OffsetBound(b, es, m);
    AbsorbFits(es, j, m);
    AbsorbEntry(b, es, j, Offset(es, m) - Offset(es, j));
    var p, q := Offset(es, j), Offset(es, m);
    var c := Put16(b, p + 4, q - p);
    AbsorbPieces(b, c, es, j, m);
    LaidAround(c, es[..j], p, es[j].(recLen := q - p), q, es[m..]);
  }

  lemma AbsorbEntry(b: seq<Byte>, es: seq<Entry>, j: nat, len: nat)
    requires Tiled(b, es) && j < |es| && len <= BLOCK_SIZE
    ensures Readable(b, Offset(es, j))
    ensures var c := Put16(b, Offset(es, j) + 4, len);
      Readable(c, Offset(es, j)) && EntryAt(c, Offset(es, j)) == es[j].(recLen := len)
  {
    EntryThere(b, es, j);
    Put16Entry(b, Offset(es, j), len);
  }

  lemma LengthInside(es: seq<Entry>, j: nat)
    requires AllFit(es) && j < |es|
    ensures Offset(es, j) + HEADER <= Offset(es, j + 1)
  {
    OffsetStep(es, j);
    assert Fits(es[j]);
  }

  lemma AbsorbPieces(b: seq<Byte>, c: seq<Byte>, es: seq<Entry>, j: nat, m: nat)
    requires Tiled(b, es) && j < m <= |es| && |c| == |b|
    requires Offset(es, j + 1) <= Offset(es, m) <= BLOCK_SIZE
    requires forall i :: 0 <= i < |b| && !(Offset(es, j) + 4 <= i < Offset(es, j) + 6) ==> c[i] == b[i]
    ensures Laid(c, 0, Offset(es, j), es[..j]) && Laid(c, Offset(es, m), BLOCK_SIZE, es[m..])
  {
    LengthInside(es, j);
    hide Laid, Offset, Tiled;
    PrefixStays(b, c, es, j);
    SuffixStays(b, c, es, m);
  }

  // ---- Deleting ----

  /** What `remove_file` does to the block: the entry last_size bytes before the victim takes over
      the victim's room. */
  function Merged(b: seq<Byte>, victim: nat, lastSize: nat): seq<Byte>
    requires lastSize <= victim && victim + HEADER <= |b|
  {
    Put16(b, victim - lastSize + 4, lastSize + U16(b, victim + 4))
  }

  /** Deleting any entry but the first deletes exactly it. */
  lemma MergeDeletes(b: seq<Byte>, es: seq<Entry>, k: nat)
    requires Tiled(b, es) && 0 < k < |es|
    ensures Offset(es, k) + HEADER <= |b| && es[k - 1].recLen <= Offset(es, k)
    ensures Tiled(Merged(b, Offset(es, k), es[k - 1].recLen),
      es[..k - 1] + [es[k - 1].(recLen := es[k - 1].recLen + es[k].recLen)] + es[k + 1..])
  {
    hide Laid, Tiled, Merged, Offset, Put16;
    MergeIs(b, es, k);
    AbsorbLaid(b, es, k - 1, k + 1);
  }

  lemma MergeIs(b: seq<Byte>, es: seq<Entry>, k: nat)
    requires Tiled(b, es) && 0 < k < |es|
    ensures Offset(es, k) + HEADER <= |b| && Offset(es, k) == Offset(es, k - 1) + es[k - 1].recLen
    ensures Offset(es, k + 1) - Offset(es, k - 1) == es[k - 1].recLen + es[k].recLen
    ensures Merged(b, Offset(es, k), es[k - 1].recLen)
      == Put16(b, Offset(es, k - 1) + 4, es[k - 1].recLen + es[k].recLen)
  {
    EntryThere(b, es, k);
    OffsetStep(es, k - 1);
    OffsetStep(es, k);
    assert EntryAt(b, Offset(es, k)).recLen == es[k].recLen;
  }

  /** Deleting the first entry changes nothing in the block. */
  lemma MergeFirst(b: seq<Byte>, es: seq<Entry>)
    requires Tiled(b, es)
    ensures Merged(b, 0, 0) == b
  {
    Put16Same(b, 4);
  }

  // ---- Undeleting ----

  /** What `restore_file` does to the block. */
  function Resized(b: seq<Byte>, victim: nat, lastSize: nat): seq<Byte>
    requires lastSize <= victim && victim + HEADER <= |b|
  {
    Put16(b, victim - lastSize + 4, lastSize)
  }

  /** After a deletion with the size m of the entry before the victim, undeleting with size r gives the
      block back byte for byte if and only if r is m. */
  lemma ResizeUndoesMerge(b: seq<Byte>, victim: nat, m: nat, r: nat)
    requires m <= victim && r <= victim && victim + HEADER <= |b| && m % 4 == 0 && r % 4 == 0
    requires U16(b, victim - m + 4) == m && U16(b, victim + 4) > 0
    ensures Resized(Merged(b, victim, m), victim, r) == b <==> r == m
  {
    var p, q := victim - m + 4, victim - r + 4;
    var merged := Merged(b, victim, m);
    assert U16(merged, p) != m;
    if r == m {
      Put16Twice(b, p, m + U16(b, victim + 4), m);
      Put16Same(b, p);
    } else {
      FourApart(victim, m, r);
      assert U16(Resized(merged, victim, r), p) == U16(merged, p);
    }
  }

  lemma FourApart(victim: nat, m: nat, r: nat)
    requires m <= victim && r <= victim && m % 4 == 0 && r % 4 == 0 && r != m
    ensures r + 4 <= m || m + 4 <= r
  {
  }

  /** Entry k shrunk to make room for entries that lie in its room. */
  lemma ShrinkShows(b: seq<Byte>, es: seq<Entry>, k: nat, size: nat, shown: seq<Entry>)
    requires Tiled(b, es) && k < |es| && AllFit(shown) && Fits(es[k].(recLen := size))
    requires Laid(b, Offset(es, k) + size, Offset(es, k + 1), shown)
    ensures Offset(es, k) + 6 <= |b|
    ensures Tiled(Put16(b, Offset(es, k) + 4, size), es[..k] + [es[k].(recLen := size)] + (shown + es[k + 1..]))
  {
    hide Laid, Offset, EntryAt, Readable, AllFit;
    EntryThere(b, es, k);
    AbsorbEntry(b, es, k, size);
    var p, q := Offset(es, k), Offset(es, k + 1);
    var c := Put16(b, p + 4, size);
    ShrinkPieces(b, c, es, k, size, shown);
    LaidAround(c, es[..k], p, es[k].(recLen := size), p + size, shown + es[k + 1..]);
    ShownFit(es, k, size, shown);
  }

  lemma ShrinkPieces(b: seq<Byte>, c: seq<Byte>, es: seq<Entry>, k: nat, size: nat, shown: seq<Entry>)
    requires Tiled(b, es) && k < |es| && AllFit(shown) && |c| == |b| && HEADER <= size
    requires Offset(es, k + 1) <= BLOCK_SIZE
    requires Laid(b, Offset(es, k) + size, Offset(es, k + 1), shown)
    requires forall i :: 0 <= i < |b| && !(Offset(es, k) + 4 <= i < Offset(es, k) + 6) ==> c[i] == b[i]
    ensures Laid(c, 0, Offset(es, k), es[..k])
    ensures Laid(c, Offset(es, k) + size, BLOCK_SIZE, shown + es[k + 1..])
  {
    hide Laid, Offset, EntryAt, Readable, AllFit;
    PrefixStays(b, c, es, k);
    LaidEnd(b, Offset(es, k) + size, Offset(es, k + 1), shown);
    LaidFrame(b, c, Offset(es, k) + size, Offset(es, k + 1), shown);
    SuffixStays(b, c, es, k + 1);
    LaidJoin(c, Offset(es, k) + size, Offset(es, k + 1), BLOCK_SIZE, shown, es[k + 1..]);
  }

  lemma ShownFit(es: seq<Entry>, k: nat, size: nat, shown: seq<Entry>)
    requires AllFit(es) && k < |es| && AllFit(shown) && Fits(es[k].(recLen := size))
    ensures AllFit(es[..k] + [es[k].(recLen := size)] + (shown + es[k + 1..]))
  {
    var all := es[..k] + [es[k].(recLen := size)] + (shown + es[k + 1..]);
    forall i | 0 <= i < |all| ensures Fits(all[i]) {
      if i < k { assert all[i] == es[i]; }
      else if k < i <= k + |shown| { assert all[i] == shown[i - k - 1]; }
      else if i > k { assert all[i] == es[i - |shown|]; }
    }
  }

  // ---- Inserting ----

  /** `new_directory_fits`. */
  predicate NewFits(b: seq<Byte>, last: nat, name: Name)
    requires Readable(b, last)
  {
    last + Tight(EntryAt(b, last).name) + Tight(name) <= BLOCK_SIZE
  }

  /** The directory part of `add_directory` and `add_file_loc`: the last entry is trimmed, unless its
      record length is 0 because the block is new, and the new entry takes the rest of the block.
      In a new block both are the same entry. */
  function Added(b: seq<Byte>, last: nat, name: Name, inode: nat, fileType: nat): seq<Byte>
    requires |b| == BLOCK_SIZE && Readable(b, last)
    requires last + Tight(EntryAt(b, last).name) + HEADER + |name| <= BLOCK_SIZE
  {
    if U16(b, last + 4) > 0 then
      var tight := Tight(EntryAt(b, last).name);
      PutEntry(Put16(b, last + 4, tight), last + tight, Entry(inode, BLOCK_SIZE - last - tight, fileType, name))
    else
      PutEntry(b, last, Entry(inode, BLOCK_SIZE - last - U16(b, last + 4), fileType, name))
  }

  lemma TightAligned(o: nat, name: Name)
    requires o % 4 == 0
    ensures (BLOCK_SIZE - o - Tight(name)) % 4 == 0
  {
  }

  ghost function Appended(es: seq<Entry>, k: nat, name: Name, inode: nat, fileType: nat): seq<Entry>
    requires k < |es|
  {
    var tight := Tight(es[k].name);
    var rest := if Offset(es, k) + tight <= BLOCK_SIZE then BLOCK_SIZE - Offset(es, k) - tight else 0;
    es[..k] + [es[k].(recLen := tight)] + [Entry(inode, rest, fileType, name)]
  }

  /** Splitting entry k keeps the entries before it, trims it, and puts the new one after it; whatever
      followed it is gone. */
  lemma AddAppends(b: seq<Byte>, es: seq<Entry>, k: nat, name: Name, inode: nat, fileType: nat)
    requires Tiled(b, es) && k < |es| && inode < 0x1_0000_0000 && fileType < 256
    requires Offset(es, k) + Tight(es[k].name) + HEADER + |name| <= BLOCK_SIZE
    ensures Readable(b, Offset(es, k)) && EntryAt(b, Offset(es, k)) == es[k]
    ensures Tiled(Added(b, Offset(es, k), name, inode, fileType), Appended(es, k, name, inode, fileType))
  {
    hide Laid, Offset, EntryAt, Readable, Added, Tight;
    EntryThere(b, es, k);
    assert Fits(es[k]);
    AddReads(b, Offset(es, k), es[k], name, inode, fileType);
    AddedHere(b, Added(b, Offset(es, k), name, inode, fileType), es, k, name, inode, fileType);
  }

  lemma AddedHere(b: seq<Byte>, c: seq<Byte>, es: seq<Entry>, k: nat, name: Name, inode: nat, fileType: nat)
    requires Tiled(b, es) && k < |es| && |c| == BLOCK_SIZE
    requires forall i :: 0 <= i < Offset(es, k) && i < BLOCK_SIZE ==> c[i] == b[i]
    requires Offset(es, k) + Tight(es[k].name) + HEADER + |name| <= BLOCK_SIZE
    requires var o, tight := Offset(es, k), Tight(es[k].name);
      && Readable(c, o) && EntryAt(c, o) == es[k].(recLen := tight)
      && Readable(c, o + tight) && EntryAt(c, o + tight) == Entry(inode, BLOCK_SIZE - o - tight, fileType, name)
    ensures Tiled(c, Appended(es, k, name, inode, fileType))
  {
    AppendedFit(es, k, name, inode, fileType);
    var tight := Tight(es[k].name);
    AddTiles(b, c, es, k, es[k].(recLen := tight), Entry(inode, BLOCK_SIZE - Offset(es, k) - tight, fileType, name));
  }

  lemma AddTiles(b: seq<Byte>, c: seq<Byte>, es: seq<Entry>, k: nat, e: Entry, f: Entry)
    requires Tiled(b, es) && k < |es| && |c| == |b| && forall i :: 0 <= i < Offset(es, k) && i < |b| ==> c[i] == b[i]
    requires Readable(c, Offset(es, k)) && EntryAt(c, Offset(es, k)) == e && Fits(e) && Fits(f)
    requires Readable(c, Offset(es, k) + e.recLen) && EntryAt(c, Offset(es, k) + e.recLen) == f
    requires Offset(es, k) + e.recLen + f.recLen == BLOCK_SIZE
    ensures Tiled(c, es[..k] + [e] + [f])
  {
    AddLaid(b, c, es, k, e, f);
    var all := es[..k] + [e] + [f];
    forall i | 0 <= i < |all| ensures Fits(all[i]) { if i < k { assert all[i] == es[i]; } }
  }

  lemma AddLaid(b: seq<Byte>, c: seq<Byte>, es: seq<Entry>, k: nat, e: Entry, f: Entry)
    requires Tiled(b, es) && k < |es| && |c| == |b| && forall i :: 0 <= i < Offset(es, k) && i < |b| ==> c[i] == b[i]
    requires Readable(c, Offset(es, k)) && EntryAt(c, Offset(es, k)) == e
    requires Readable(c, Offset(es, k) + e.recLen) && EntryAt(c, Offset(es, k) + e.recLen) == f
    requires Offset(es, k) + e.recLen + f.recLen == BLOCK_SIZE
    ensures Laid(c, 0, BLOCK_SIZE, es[..k] + [e] + [f])
  {
    hide Laid, Offset, EntryAt, Readable;
    PrefixStays(b, c, es, k);
    LaidTwo(c, es[..k], Offset(es, k), e, f);
  }

  lemma PrefixStays(b: seq<Byte>, c: seq<Byte>, es: seq<Entry>, k: nat)
    requires Tiled(b, es) && k < |es| && |c| == |b| && forall i :: 0 <= i < Offset(es, k) && i < |b| ==> c[i] == b[i]
    ensures Laid(c, 0, Offset(es, k), es[..k])
  {
    OffsetBound(b, es, k);
    LaidSplit(b, 0, BLOCK_SIZE, es, k);
    LaidFrame(b, c, 0, Offset(es, k), es[..k]);
  }

  /** What a split leaves of the two entries, and of the bytes before them. */
  lemma AddReads(b: seq<Byte>, o: nat, was: Entry, name: Name, inode: nat, fileType: nat)
    requires |b| == BLOCK_SIZE && Readable(b, o) && EntryAt(b, o) == was && was.recLen > 0
    requires inode < 0x1_0000_0000 && fileType < 256 && o + Tight(was.name) + HEADER + |name| <= BLOCK_SIZE
    ensures var c := Added(b, o, name, inode, fileType); var tight := Tight(was.name);
      && |c| == BLOCK_SIZE && (forall i :: 0 <= i < o ==> c[i] == b[i])
      && Readable(c, o) && EntryAt(c, o) == was.(recLen := tight)
      && Readable(c, o + tight) && EntryAt(c, o + tight) == Entry(inode, BLOCK_SIZE - o - tight, fileType, name)
  {
    var tight := Tight(was.name);
    var e := Entry(inode, BLOCK_SIZE - o - tight, fileType, name);
    AddedIs(b, o, was, tight, e);
    SplitReads(b, o, was, tight, e);
  }

  lemma AddedIs(b: seq<Byte>, o: nat, was: Entry, tight: nat, e: Entry)
    requires |b| == BLOCK_SIZE && Readable(b, o) && EntryAt(b, o) == was && was.recLen > 0 && tight == Tight(was.name)
    requires o + tight + HEADER + |e.name| <= BLOCK_SIZE && e.recLen == BLOCK_SIZE - o - tight
    ensures Added(b, o, e.name, e.inode, e.fileType) == PutEntry(Put16(b, o + 4, tight), o + tight, e)
  {
    assert U16(b, o + 4) == was.recLen;
  }

  lemma SplitReads(b: seq<Byte>, o: nat, was: Entry, tight: nat, e: Entry)
    requires Readable(b, o) && EntryAt(b, o) == was && HEADER + |was.name| <= tight < 0x1_0000
    requires o + tight + HEADER + |e.name| <= |b| && e.inode < 0x1_0000_0000 && e.recLen < 0x1_0000 && e.fileType < 256
    ensures var c := PutEntry(Put16(b, o + 4, tight), o + tight, e);
      && |c| == |b| && (forall i :: 0 <= i < o ==> c[i] == b[i])
      && Readable(c, o) && EntryAt(c, o) == was.(recLen := tight)
      && Readable(c, o + tight) && EntryAt(c, o + tight) == e
  {
    var d := Put16(b, o + 4, tight);
    Put16Entry(b, o, tight);
    PutEntryReads(d, o + tight, e);
    SameEntry(d, PutEntry(d, o + tight, e), o);
  }

  lemma LaidTwo(c: seq<Byte>, before: seq<Entry>, o: nat, e: Entry, f: Entry)
    requires |c| == BLOCK_SIZE && Laid(c, 0, o, before) && Readable(c, o) && EntryAt(c, o) == e
    requires Readable(c, o + e.recLen) && EntryAt(c, o + e.recLen) == f && o + e.recLen + f.recLen == BLOCK_SIZE
    ensures Laid(c, 0, BLOCK_SIZE, before + [e] + [f])
  {
    LaidOne(c, o + e.recLen, f);
    LaidAround(c, before, o, e, o + e.recLen, [f]);
  }

  lemma AppendedFit(es: seq<Entry>, k: nat, name: Name, inode: nat, fileType: nat)
    requires AllFit(es) && k < |es|
    requires Offset(es, k) + Tight(es[k].name) + HEADER + |name| <= BLOCK_SIZE
    ensures Fits(es[k].(recLen := Tight(es[k].name)))
    ensures Fits(Entry(inode, BLOCK_SIZE - Offset(es, k) - Tight(es[k].name), fileType, name))
  {
    OffsetAligned(es, k);
    TightAligned(Offset(es, k), es[k].name);
  }

  /** In a new block, whose first record length has been set to 0, the new entry fills the block. */
  lemma AddToNewBlock(b: seq<Byte>, name: Name, inode: nat, fileType: nat)
    requires |b| == BLOCK_SIZE && U16(b, 4) == 0 && inode < 0x1_0000_0000 && fileType < 256
    ensures Readable(b, 0) && Tight(EntryAt(b, 0).name) + HEADER + |name| <= BLOCK_SIZE
    ensures Tiled(Added(b, 0, name, inode, fileType), [Entry(inode, BLOCK_SIZE, fileType, name)])
  {
    var e := Entry(inode, BLOCK_SIZE, fileType, name);
    PutEntryReads(b, 0, e);
    LaidOne(PutEntry(b, 0, e), 0, e);
    assert Fits(e);
  }

  /** `add_initial_directories`. */
  function InitialEntries(b: seq<Byte>, index: nat, parent: nat): (c: seq<Byte>)
    requires |b| == BLOCK_SIZE
    ensures |c| == BLOCK_SIZE
  {
    PutEntry(PutEntry(b, 0, Entry(index, 12, FT_DIR, [46])), 12, Entry(parent, BLOCK_SIZE - 12, FT_DIR, [46, 46]))
  }

  lemma InitialTiled(b: seq<Byte>, index: nat, parent: nat)
    requires |b| == BLOCK_SIZE && index < 0x1_0000_0000 && parent < 0x1_0000_0000
    ensures Tiled(InitialEntries(b, index, parent),
      [Entry(index, 12, FT_DIR, [46]), Entry(parent, BLOCK_SIZE - 12, FT_DIR, [46, 46])])
  {
    hide Laid, PutEntry;
    var self, up := Entry(index, 12, FT_DIR, [46]), Entry(parent, BLOCK_SIZE - 12, FT_DIR, [46, 46]);
    var c := PutEntry(b, 0, self);
    var d := PutEntry(c, 12, up);
    PutEntryReads(b, 0, self);
    PutEntryReads(c, 12, up);
    SameEntry(c, d, 0);
    LaidOne(d, 0, self);
    LaidOne(d, 12, up);
    LaidJoin(d, 0, 12, BLOCK_SIZE, [self], [up]);
    assert [self] + [up] == [self, up];
    assert Fits(self) && Fits(up);
  }

  // ---- Correcting a type ----

  /** Writing the type byte of entry k changes that entry's type and nothing else of the list. */
  lemma TypeWritten(b: seq<Byte>, es: seq<Entry>, k: nat, fileType: Byte)
    requires Tiled(b, es) && k < |es|
    ensures Offset(es, k) + 7 < |b|
    ensures Tiled(b[Offset(es, k) + 7 := fileType], es[k := es[k].(fileType := fileType)])
  {
    EntryThere(b, es, k);
    assert Fits(es[k]);
    var o := Offset(es, k);
    var c, e := b[o + 7 := fileType], es[k].(fileType := fileType);
    TypeReads(b, o, fileType);
    Replaced(b, c, es, k, e);
  }

  /** An entry rewritten where it lies, with the same record length. */
  lemma Replaced(b: seq<Byte>, c: seq<Byte>, es: seq<Entry>, k: nat, e: Entry)
    requires Tiled(b, es) && k < |es| && |c| == |b| && Fits(e) && e.recLen == es[k].recLen
    requires Readable(c, Offset(es, k)) && EntryAt(c, Offset(es, k)) == e
    requires forall i :: 0 <= i < |b| && !(Offset(es, k) <= i < Offset(es, k) + e.recLen) ==> c[i] == b[i]
    ensures Tiled(c, es[k := e])
  {
    OffsetStep(es, k);
    PrefixStays(b, c, es, k);
    SuffixStays(b, c, es, k + 1);
    ReplacedLaid(c, es, k, e, Offset(es, k), Offset(es, k + 1));
    ReplacedFit(es, k, e);
  }

  lemma ReplacedLaid(c: seq<Byte>, es: seq<Entry>, k: nat, e: Entry, p: nat, q: nat)
    requires k < |es| && |c| == BLOCK_SIZE && Laid(c, 0, p, es[..k]) && Laid(c, q, BLOCK_SIZE, es[k + 1..])
    requires Readable(c, p) && EntryAt(c, p) == e && q == p + e.recLen
    ensures Laid(c, 0, BLOCK_SIZE, es[k := e])
  {
    hide Laid, EntryAt, Readable;
    LaidAround(c, es[..k], p, e, q, es[k + 1..]);
    assert es[k := e] == es[..k] + [e] + es[k + 1..];
  }

  lemma ReplacedFit(es: seq<Entry>, k: nat, e: Entry)
    requires k < |es| && AllFit(es) && Fits(e)
    ensures AllFit(es[k := e])
  {
    var all := es[k := e];
    forall i | 0 <= i < |all| ensures Fits(all[i]) { if i != k { assert all[i] == es[i]; } }
  }

  lemma TypeReads(b: seq<Byte>, o: nat, fileType: Byte)
    requires Readable(b, o)
    ensures var c := b[o + 7 := fileType]; Readable(c, o) && EntryAt(c, o) == EntryAt(b, o).(fileType := fileType)
  {
    var c := b[o + 7 := fileType];
    assert c[o + HEADER..o + HEADER + b[o + 6]] == b[o + HEADER..o + HEADER + b[o + 6]];
  }

  lemma SuffixStays(b: seq<Byte>, c: seq<Byte>, es: seq<Entry>, k: nat)
    requires Tiled(b, es) && k <= |es| && |c| == |b| && forall i :: Offset(es, k) <= i < |b| ==> c[i] == b[i]
    ensures Laid(c, Offset(es, k), BLOCK_SIZE, es[k..])
  {
    LaidSplit(b, 0, BLOCK_SIZE, es, k);
    LaidFrame(b, c, Offset(es, k), BLOCK_SIZE, es[k..]);
  }

  // ---- The same in place ----

  method Put(b: array<Byte>, o: nat, v: nat)
    requires o + 2 <= b.Length
    modifies b
    ensures b[..] == Put16(old(b[..]), o, v)
  {
    b[o], b[o + 1] := v % 256, v / 256 % 256;
  }

  method PutName(b: array<Byte>, o: nat, name: Name)
    requires o + |name| <= b.Length
    modifies b
    ensures b[..] == PutBytes(old(b[..]), o, name)
  {
    for i := 0 to |name|
      invariant b[..] == PutBytes(old(b[..]), o, name[..i])
    {
      b[o + i] := name[i];
      assert b[..] == PutBytes(old(b[..]), o, name[..i + 1]);
    }
    assert name[..|name|] == name;
  }

  /** The assignments to the fields of a new entry. */
  method WriteEntry(b: array<Byte>, o: nat, e: Entry)
    requires o + HEADER + |e.name| <= b.Length
    modifies b
    ensures b[..] == PutEntry(old(b[..]), o, e)
  {
    PutName(b, o + HEADER, e.name);
    b[o + 6], b[o + 7] := |e.name|, e.fileType % 256;
    ghost var named := PutBytes(old(b[..]), o + HEADER, e.name)[o + 6 := |e.name|][o + 7 := e.fileType % 256];
    assert b[..] == named;
    WriteInode(b, o, e.inode);
    Put(b, o + 4, e.recLen);
  }

  method WriteInode(b: array<Byte>, o: nat, v: nat)
    requires o + 4 <= b.Length
    modifies b
    ensures b[..] == Put32(old(b[..]), o, v)
  {
    b[o], b[o + 1], b[o + 2], b[o + 3] := v % 256, v / 0x100 % 256, v / 0x1_0000 % 256, v / 0x100_0000 % 256;
  }

  /** The directory part of `add_directory` and `add_file_loc`. */
  method AddEntry(b: array<Byte>, last: nat, name: Name, inode: nat, fileType: nat)
    requires b.Length == BLOCK_SIZE && Readable(b[..], last)
    requires last + Tight(EntryAt(b[..], last).name) + HEADER + |name| <= BLOCK_SIZE
    modifies b
    ensures b[..] == Added(old(b[..]), last, name, inode, fileType)
  {
    hide PutEntry, Put16, Tight;
    if U16(b[..], last + 4) > 0 {
      var tight := Tight(EntryAt(b[..], last).name);
      Split(b, last, tight, Entry(inode, BLOCK_SIZE - last - tight, fileType, name));
    } else {
      WriteEntry(b, last, Entry(inode, BLOCK_SIZE - last - U16(b[..], last + 4), fileType, name));
    }
  }

  /** The last entry trimmed, and a new one behind it. */
  method Split(b: array<Byte>, last: nat, tight: nat, e: Entry)
    requires last + 6 <= b.Length && last + tight + HEADER + |e.name| <= b.Length
    modifies b
    ensures b[..] == PutEntry(Put16(old(b[..]), last + 4, tight), last + tight, e)
  {
    Put(b, last + 4, tight);
    WriteEntry(b, last + tight, e);
  }
}
