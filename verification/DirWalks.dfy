/** The walks through a directory block: `search_entry` of the remover, the gap-walking `search_entry`
    of the restorer and the walk to the last entry in `mk_dir` and `get_file_entry`. */
module DirWalks {
  import opened Options
  import opened DirBlocks
  import opened DirEdits
  import opened ByteMaps

  datatype Outcome =
    | Found(offset: nat, lastSize: nat)   // the entry, and the size the walk took the previous one to have
    | Directory                           // the name belongs to a directory
    | Missing                             // the walk reached the end of the block
    | NoProgress                          // a record length of 0: the loop does not end
    | PastEnd                             // an entry that runs past the end of the block
    | BadInode                            // an inode number without a bit in the bitmap

  // ---- The remover's walk ----

  function RmSearch(b: seq<Byte>, name: Name, counter: nat, lastSize: nat): Outcome
    decreases BLOCK_SIZE - counter
  {
    if counter >= BLOCK_SIZE then Missing
    else if !Readable(b, counter) then PastEnd
    else
      var e := EntryAt(b, counter);
      if e.name == name then (if e.fileType == FT_DIR then Directory else Found(counter, lastSize))
      else if e.recLen == 0 then NoProgress
      else RmSearch(b, name, counter + e.recLen, e.recLen)
  }

  /** None of the first k entries has the name. */
  ghost predicate Unnamed(es: seq<Entry>, name: Name, k: nat)
    requires k <= |es|
  {
    forall i :: 0 <= i < k ==> es[i].name != name
  }

  /** The size of the entry before index k, 0 for the first. */
  function SizeBefore(es: seq<Entry>, k: nat): nat
    requires k <= |es|
  {
    if k == 0 then 0 else es[k - 1].recLen
  }

  lemma {:induction false} RmReaches(b: seq<Byte>, es: seq<Entry>, name: Name, k: nat)
    requires Tiled(b, es) && k <= |es| && Unnamed(es, name, k)
    ensures RmSearch(b, name, 0, 0) == RmSearch(b, name, Offset(es, k), SizeBefore(es, k))
  {
    hide RmSearch, Tiled;
    if k > 0 {
      RmReaches(b, es, name, k - 1);
      EntryThere(b, es, k - 1);
      OffsetBefore(b, es, k - 1);
      RmStep(b, name, Offset(es, k - 1), SizeBefore(es, k - 1), es[k - 1]);
    }
  }

  lemma RmStep(b: seq<Byte>, name: Name, counter: nat, lastSize: nat, e: Entry)
    requires counter < BLOCK_SIZE && Readable(b, counter) && EntryAt(b, counter) == e && e.recLen > 0 && e.name != name
    ensures RmSearch(b, name, counter, lastSize) == RmSearch(b, name, counter + e.recLen, e.recLen)
  {
  }

  /** The remover finds the first entry with the name, and the size of the one before it. */
  lemma RmFinds(b: seq<Byte>, es: seq<Entry>, name: Name, k: nat)
    requires Tiled(b, es) && k < |es| && es[k].name == name && Unnamed(es, name, k)
    ensures RmSearch(b, name, 0, 0) ==
      if es[k].fileType == FT_DIR then Directory else Found(Offset(es, k), SizeBefore(es, k))
  {
    RmReaches(b, es, name, k);
    EntryThere(b, es, k);
  }

  /** Without an entry of that name the walk ends exactly at the block's end. */
  lemma RmMisses(b: seq<Byte>, es: seq<Entry>, name: Name)
    requires Tiled(b, es) && Unnamed(es, name, |es|)
    ensures RmSearch(b, name, 0, 0) == Missing
  {
    RmReaches(b, es, name, |es|);
    LaidEnd(b, 0, BLOCK_SIZE, es);
  }

  /** What the remover does to the block. */
  function RmBlock(b: seq<Byte>, name: Name): seq<Byte> {
    match RmSearch(b, name, 0, 0)
    case Found(o, size) => if size <= o && o + HEADER <= |b| then Merged(b, o, size) else b
    case _ => b
  }

  /** Removing a file deletes its entry and no other, unless the entry is the first of the block. */
  lemma RmDeletes(b: seq<Byte>, es: seq<Entry>, name: Name, k: nat)
    requires Tiled(b, es) && 0 < k < |es| && es[k].name == name && es[k].fileType != FT_DIR && Unnamed(es, name, k)
    ensures Tiled(RmBlock(b, name),
      es[..k - 1] + [es[k - 1].(recLen := es[k - 1].recLen + es[k].recLen)] + es[k + 1..])
  {
    RmFinds(b, es, name, k);
    MergeDeletes(b, es, k);
  }

  lemma RmFirstKeeps(b: seq<Byte>, es: seq<Entry>, name: Name)
    requires Tiled(b, es) && es[0].name == name
    ensures RmBlock(b, name) == b
  {
    RmFinds(b, es, name, 0);
    MergeFirst(b, es);
  }

  /** One entry read out of the block. */
  method Read(b: array<Byte>, o: nat) returns (r: Option<Entry>)
    ensures r == if Readable(b[..], o) then Some(EntryAt(b[..], o)) else None
  {
    if o + HEADER > b.Length || o + HEADER + b[o + 6] > b.Length {
      return None;
    }
    r := Some(EntryAt(b[..], o));
  }

  /** The loop of the remover's `search_entry`. */
  method FindVictim(b: array<Byte>, name: Name) returns (r: Outcome)
    ensures r == RmSearch(b[..], name, 0, 0)
  {
    var counter: nat, lastSize: nat := 0, 0;
    while counter < BLOCK_SIZE
      invariant RmSearch(b[..], name, counter, lastSize) == RmSearch(b[..], name, 0, 0)
      decreases BLOCK_SIZE - counter
    {
      var read := Read(b, counter);
      if read.None? {
        return PastEnd;
      }
      var e := read.value;
      if e.name == name {
        return if e.fileType == FT_DIR then Directory else Found(counter, lastSize);
      }
      if e.recLen == 0 {
        return NoProgress;
      }
      lastSize := e.recLen;
      counter := counter + e.recLen;
    }
    return Missing;
  }

  /** The walk with the merge at its end. */
  method RemoveEntry(b: array<Byte>, name: Name) returns (r: Outcome)
    modifies b
    ensures r == RmSearch(old(b[..]), name, 0, 0)
    ensures b[..] == RmBlock(old(b[..]), name)
  {
    r := FindVictim(b, name);
    if r.Found? && r.lastSize <= r.offset && r.offset + HEADER <= b.Length {
      Merge(b, r.offset, r.lastSize);
    }
  }

  /** The first assignment of `remove_file`. */
  method Merge(b: array<Byte>, victim: nat, lastSize: nat)
    requires lastSize <= victim && victim + HEADER <= b.Length
    modifies b
    ensures b[..] == Merged(old(b[..]), victim, lastSize)
  {
    Put(b, victim - lastSize + 4, lastSize + U16(b[..], victim + 4));
  }

  // ---- The restorer's walk ----

  datatype Turn = Stop(outcome: Outcome) | Go(counter: nat, lastSize: nat)

  /** What one turn of the loop does at entry e: a live entry is stepped over by its least size, to
      land in the gap behind it, a dead one by its record length. */
  function RestoreTurn(e: Entry, bits: seq<bool>, name: Name, counter: nat, lastSize: nat): (t: Turn)
    ensures t.Go? ==> t.counter > counter
  {
    if e.fileType == FT_DIR && e.name == name then Stop(Directory)
    else if e.fileType != FT_DIR && e.name <= name then Stop(Found(counter, lastSize))
    else if !(0 < e.inode <= |bits|) then Stop(BadInode)
    else if bits[e.inode - 1] then Go(counter + Tight(e.name), Tight(e.name))
    else if e.recLen == 0 then Stop(NoProgress)
    else Go(counter + e.recLen, lastSize + e.recLen)
  }

  function RestoreSearch(b: seq<Byte>, bits: seq<bool>, name: Name, counter: nat, lastSize: nat): Outcome
    decreases BLOCK_SIZE - counter
  {
    if counter >= BLOCK_SIZE then Missing
    else if !Readable(b, counter) then PastEnd
    else
      match RestoreTurn(EntryAt(b, counter), bits, name, counter, lastSize)
      case Stop(outcome) => outcome
      case Go(next, size) => RestoreSearch(b, bits, name, next, size)
  }

  function RestoreBlock(b: seq<Byte>, bits: seq<bool>, name: Name): seq<Byte> {
    match RestoreSearch(b, bits, name, 0, 0)
    case Found(o, size) => if size <= o && o + HEADER <= |b| then Resized(b, o, size) else b
    case _ => b
  }

  /** The walk does not take this entry for the name. */
  predicate NotTaken(e: Entry, name: Name) {
    if e.fileType == FT_DIR then e.name != name else !(e.name <= name)
  }

  /** The walk passes this entry as a live one. */
  predicate Passed(e: Entry, bits: seq<bool>, name: Name) {
    0 < e.inode <= |bits| && bits[e.inode - 1] && NotTaken(e, name)
  }

  /** The walk passes this entry as a dead one. */
  predicate Skipped(e: Entry, bits: seq<bool>, name: Name) {
    0 < e.inode <= |bits| && !bits[e.inode - 1] && NotTaken(e, name) && e.recLen > 0
  }

  ghost predicate AllSkipped(gap: seq<Entry>, bits: seq<bool>, name: Name) {
    forall i :: 0 <= i < |gap| ==> Skipped(gap[i], bits, name)
  }

  /** The entry reads the same but for its record length. */
  predicate SameButSize(c: seq<Byte>, o: nat, e: Entry) {
    Readable(c, o) && EntryAt(c, o).(recLen := e.recLen) == e
  }

  /** The room of a live entry at o, beyond what it needs itself, is filled with dead entries. */
  ghost predicate Gap(b: seq<Byte>, o: nat, e: Entry, gap: seq<Entry>, bits: seq<bool>, name: Name) {
    && Passed(e, bits, name) && AllFit(gap) && AllSkipped(gap, bits, name)
    && Laid(b, o + Tight(e.name), o + e.recLen, gap)
  }

  /** The first k entries are live, with dead ones in their gaps; the walk takes none of them. */
  ghost predicate Approach(b: seq<Byte>, es: seq<Entry>, gaps: seq<seq<Entry>>, bits: seq<bool>, name: Name, k: nat) {
    k <= |es| && k <= |gaps| && forall j :: 0 <= j < k ==> Gap(b, Offset(es, j), es[j], gaps[j], bits, name)
  }

  ghost predicate Unmoved(c: seq<Byte>, es: seq<Entry>, k: nat)
    requires k <= |es|
  {
    forall j :: 0 <= j < k ==> SameButSize(c, Offset(es, j), es[j])
  }

  /** Over dead entries the walk adds up their record lengths. */
  lemma {:induction false} WalkGap(c: seq<Byte>, bits: seq<bool>, name: Name, p: nat, q: nat, size: nat,
      gap: seq<Entry>)
    requires Laid(c, p, q, gap) && AllSkipped(gap, bits, name) && q <= BLOCK_SIZE
    ensures p <= q && RestoreSearch(c, bits, name, p, size) == RestoreSearch(c, bits, name, q, size + (q - p))
    decreases |gap|
  {
    hide RestoreSearch, Tight;
    if gap != [] {
      var e := gap[0];
      LaidEnd(c, p + e.recLen, q, gap[1..]);
      assert Skipped(e, bits, name);
      WalkGap(c, bits, name, p + e.recLen, q, size + e.recLen, gap[1..]);
      DeadStep(c, bits, name, p, size, e);
    }
  }

  lemma DeadStep(c: seq<Byte>, bits: seq<bool>, name: Name, counter: nat, lastSize: nat, e: Entry)
    requires counter < BLOCK_SIZE && Readable(c, counter) && EntryAt(c, counter) == e && Skipped(e, bits, name)
    ensures RestoreSearch(c, bits, name, counter, lastSize)
      == RestoreSearch(c, bits, name, counter + e.recLen, lastSize + e.recLen)
  {
  }

  lemma LiveStep(c: seq<Byte>, bits: seq<bool>, name: Name, counter: nat, lastSize: nat, e: Entry)
    requires counter < BLOCK_SIZE && Passed(e, bits, name) && SameButSize(c, counter, e)
    ensures RestoreSearch(c, bits, name, counter, lastSize)
      == RestoreSearch(c, bits, name, counter + Tight(e.name), Tight(e.name))
  {
  }

  /** A live entry and its gap: the size is then that entry's record length, whatever is written in it. */
  lemma PassEntry(c: seq<Byte>, bits: seq<bool>, name: Name, o: nat, lastSize: nat, e: Entry, gap: seq<Entry>)
    requires o + e.recLen <= BLOCK_SIZE && SameButSize(c, o, e) && Gap(c, o, e, gap, bits, name)
    ensures RestoreSearch(c, bits, name, o, lastSize) == RestoreSearch(c, bits, name, o + e.recLen, e.recLen)
  {
    hide RestoreSearch, Tight, SameButSize;
    LaidEnd(c, o + Tight(e.name), o + e.recLen, gap);
    LiveStep(c, bits, name, o, lastSize, e);
    WalkGap(c, bits, name, o + Tight(e.name), o + e.recLen, Tight(e.name), gap);
  }

  lemma {:induction false} RestoreReaches(c: seq<Byte>, es: seq<Entry>, gaps: seq<seq<Entry>>, bits: seq<bool>,
      name: Name, k: nat)
    requires Approach(c, es, gaps, bits, name, k) && Unmoved(c, es, k) && Offset(es, k) <= BLOCK_SIZE
    ensures RestoreSearch(c, bits, name, 0, 0) == RestoreSearch(c, bits, name, Offset(es, k), SizeBefore(es, k))
  {
    hide RestoreSearch, Tight, SameButSize, Gap;
    if k > 0 {
      OffsetStep(es, k - 1);
      RestoreReaches(c, es, gaps, bits, name, k - 1);
      PassEntry(c, bits, name, Offset(es, k - 1), SizeBefore(es, k - 1), es[k - 1], gaps[k - 1]);
    }
  }

  /** The bytes but for the record length of the entry before k. */
  ghost predicate SameButLength(b: seq<Byte>, c: seq<Byte>, p: nat) {
    |c| == |b| && forall i :: 0 <= i < |b| && !(p + 4 <= i < p + 6) ==> c[i] == b[i]
  }

  lemma StillThere(b: seq<Byte>, c: seq<Byte>, es: seq<Entry>, k: nat, j: nat)
    requires Tiled(b, es) && 0 < k < |es| && j <= k && SameButLength(b, c, Offset(es, k - 1))
    ensures SameButSize(c, Offset(es, j), es[j]) && (j == k ==> EntryAt(c, Offset(es, j)) == es[j])
  {
    if j < k - 1 {
      ReadsBefore(b, c, es, j, k - 1);
    } else if j == k - 1 {
      EntryThere(b, es, j);
      LengthApart(b, c, Offset(es, j));
    } else {
      OffsetStep(es, k - 1);
      assert Fits(es[k - 1]);
      ReadsFrom(b, c, es, k);
    }
  }

  lemma LengthApart(b: seq<Byte>, c: seq<Byte>, o: nat)
    requires Readable(b, o) && SameButLength(b, c, o)
    ensures SameButSize(c, o, EntryAt(b, o))
  {
    assert c[o + HEADER..o + HEADER + b[o + 6]] == b[o + HEADER..o + HEADER + b[o + 6]];
  }

  lemma ReadsBefore(b: seq<Byte>, c: seq<Byte>, es: seq<Entry>, j: nat, m: nat)
    requires Tiled(b, es) && j < m < |es| && |c| == |b|
    requires forall i :: 0 <= i < Offset(es, m) && i < |b| ==> c[i] == b[i]
    ensures Readable(c, Offset(es, j)) && EntryAt(c, Offset(es, j)) == es[j]
  {
    EntryThere(b, es, j);
    assert Fits(es[j]);
    OffsetGrows(es, j + 1, m);
    SameEntry(b, c, Offset(es, j));
  }

  lemma ReadsFrom(b: seq<Byte>, c: seq<Byte>, es: seq<Entry>, k: nat)
    requires Tiled(b, es) && k < |es| && |c| == |b| && forall i :: Offset(es, k) <= i < |b| ==> c[i] == b[i]
    ensures Readable(c, Offset(es, k)) && EntryAt(c, Offset(es, k)) == es[k]
  {
    EntryThere(b, es, k);
    SameEntry(b, c, Offset(es, k));
  }

  /** No gap before entry k holds the record length of the entry before it. */
  lemma GapStays(b: seq<Byte>, c: seq<Byte>, es: seq<Entry>, k: nat, j: nat, gap: seq<Entry>, bits: seq<bool>,
      name: Name)
    requires Tiled(b, es) && j < k < |es| && SameButLength(b, c, Offset(es, k - 1))
    requires Gap(b, Offset(es, j), es[j], gap, bits, name)
    ensures Gap(c, Offset(es, j), es[j], gap, bits, name)
  {
    hide Tight, Offset, Laid;
    EntryThere(b, es, j);
    if j < k - 1 { OffsetGrows(es, j + 1, k - 1); }
    var p, q := Offset(es, j) + Tight(es[j].name), Offset(es, j + 1);
    LaidEnd(b, p, q, gap);
    LaidFrame(b, c, p, q, gap);
  }

  /** The restorer's walk reaches entry k, whatever record length the entry before it has. */
  lemma ApproachStays(b: seq<Byte>, c: seq<Byte>, es: seq<Entry>, gaps: seq<seq<Entry>>, bits: seq<bool>, name: Name,
      k: nat)
    requires Tiled(b, es) && 0 < k < |es| && Approach(b, es, gaps, bits, name, k)
    requires SameButLength(b, c, Offset(es, k - 1))
    ensures RestoreSearch(c, bits, name, 0, 0) == RestoreSearch(c, bits, name, Offset(es, k), es[k - 1].recLen)
    ensures Offset(es, k) < BLOCK_SIZE && Readable(c, Offset(es, k)) && EntryAt(c, Offset(es, k)) == es[k]
  {
    forall j | 0 <= j < k ensures Gap(c, Offset(es, j), es[j], gaps[j], bits, name) {
      GapStays(b, c, es, k, j, gaps[j], bits, name);
    }
    forall j | 0 <= j < k ensures SameButSize(c, Offset(es, j), es[j]) { StillThere(b, c, es, k, j); }
    StillThere(b, c, es, k, k);
    EntryThere(b, es, k);
    assert Fits(es[k]);
    RestoreReaches(c, es, gaps, bits, name, k);
  }

  /** Delete, then undelete: after the remover has merged entry k away, the restorer's walk goes over the
      live entries before it and the dead ones in their gaps, reaches it with the same previous size, and
      the block is the same byte for byte. */
  lemma BlockRoundTrip(b: seq<Byte>, es: seq<Entry>, gaps: seq<seq<Entry>>, name: Name, k: nat, bits: seq<bool>)
    requires Tiled(b, es) && 0 < k < |es| && es[k].name == name && es[k].fileType != FT_DIR
    requires Approach(b, es, gaps, bits, name, k)
    ensures RmSearch(b, name, 0, 0) == Found(Offset(es, k), es[k - 1].recLen)
    ensures RestoreSearch(RmBlock(b, name), bits, name, 0, 0) == Found(Offset(es, k), es[k - 1].recLen)
    ensures RestoreBlock(RmBlock(b, name), bits, name) == b
  {
    NamesPassed(b, es, gaps, bits, name, k);
    RmFinds(b, es, name, k);
    MergeIs(b, es, k);
    var c := RmBlock(b, name);
    ApproachStays(b, c, es, gaps, bits, name, k);
    FoundHere(c, bits, name, Offset(es, k), es[k - 1].recLen, es[k]);
    MergeUndone(b, es, k);
  }

  lemma FoundHere(c: seq<Byte>, bits: seq<bool>, name: Name, o: nat, size: nat, e: Entry)
    requires o < BLOCK_SIZE && Readable(c, o) && EntryAt(c, o) == e && e.name <= name && e.fileType != FT_DIR
    ensures RestoreSearch(c, bits, name, o, size) == Found(o, size)
  {
  }

  lemma MergeUndone(b: seq<Byte>, es: seq<Entry>, k: nat)
    requires Tiled(b, es) && 0 < k < |es|
    ensures es[k - 1].recLen <= Offset(es, k) && Offset(es, k) + HEADER <= |b|
    ensures Resized(Merged(b, Offset(es, k), es[k - 1].recLen), Offset(es, k), es[k - 1].recLen) == b
  {
    EntryThere(b, es, k);
    PreviousSize(b, es, k);
    assert Fits(es[k]) && Fits(es[k - 1]);
    ResizeUndoesMerge(b, Offset(es, k), es[k - 1].recLen, es[k - 1].recLen);
  }

  /** What the restorer makes of the block when its walk stops at the dead entry gap[i] behind entry k,
      whether or not it then restores the file: that entry and all dead entries behind it in the gap are
      entries of the block again. */
  lemma RestoreShows(b: seq<Byte>, es: seq<Entry>, gaps: seq<seq<Entry>>, k: nat, i: nat, gap: seq<Entry>,
      bits: seq<bool>, name: Name)
    requires Tiled(b, es) && k < |es| && i < |gap| && Approach(b, es, gaps, bits, name, k)
    requires Passed(es[k], bits, name) && AllFit(gap) && AllSkipped(gap[..i], bits, name)
    requires Laid(b, Offset(es, k) + Tight(es[k].name), Offset(es, k + 1), gap)
    requires gap[i].name <= name && gap[i].fileType != FT_DIR
    ensures var size := Tight(es[k].name) + Offset(gap, i); var o := Offset(es, k) + size;
      && RestoreSearch(b, bits, name, 0, 0) == Found(o, size) && Readable(b, o) && EntryAt(b, o) == gap[i]
      && Tiled(Resized(b, o, size), es[..k] + [es[k].(recLen := size)] + (gap[i..] + es[k + 1..]))
  {
    hide RestoreSearch, Tight, Offset, Laid, AllFit, Gap;
    var p := Offset(es, k) + Tight(es[k].name);
    var size := Tight(es[k].name) + Offset(gap, i);
    EntryThere(b, es, k);
    GapEntry(b, p, Offset(es, k + 1), gap, i);
    AllThere(b, es, k);
    RestoreReaches(b, es, gaps, bits, name, k);
    LiveStep(b, bits, name, Offset(es, k), SizeBefore(es, k), es[k]);
    WalkGap(b, bits, name, p, p + Offset(gap, i), Tight(es[k].name), gap[..i]);
    FoundHere(b, bits, name, p + Offset(gap, i), size, gap[i]);
    AlignedFit(es, k, gap, i);
    ShrinkShows(b, es, k, size, gap[i..]);
  }

  lemma AllThere(b: seq<Byte>, es: seq<Entry>, k: nat)
    requires Tiled(b, es) && k < |es|
    ensures Unmoved(b, es, k)
  {
    hide Tiled, Offset;
    forall j | 0 <= j < k ensures SameButSize(b, Offset(es, j), es[j]) { EntryThere(b, es, j); }
  }

  /** Entry i of a stretch, and where it lies. */
  lemma GapEntry(b: seq<Byte>, p: nat, q: nat, gap: seq<Entry>, i: nat)
    requires Laid(b, p, q, gap) && AllFit(gap) && i < |gap|
    ensures Laid(b, p, p + Offset(gap, i), gap[..i]) && Laid(b, p + Offset(gap, i), q, gap[i..])
    ensures Readable(b, p + Offset(gap, i)) && EntryAt(b, p + Offset(gap, i)) == gap[i]
    ensures p + Offset(gap, i) + HEADER <= q && AllFit(gap[i..])
  {
    LaidSplit(b, p, q, gap, i);
    LaidEnd(b, p + Offset(gap, i), q, gap[i..]);
    assert gap[i..][0] == gap[i] && Fits(gap[i]);
  }

  lemma AlignedFit(es: seq<Entry>, k: nat, gap: seq<Entry>, i: nat)
    requires AllFit(es) && k < |es| && AllFit(gap) && i <= |gap|
    requires Offset(es, k) + Tight(es[k].name) + Offset(gap, i) <= BLOCK_SIZE
    ensures Fits(es[k].(recLen := Tight(es[k].name) + Offset(gap, i)))
  {
    hide Tight, Offset;
    assert Fits(es[k]) by { }
    OffsetAligned(gap, i);
    AlignedSum(Tight(es[k].name), Offset(gap, i));
  }

  lemma AlignedSum(m: nat, n: nat)
    requires m % 4 == 0 && n % 4 == 0
    ensures (m + n) % 4 == 0
  {
  }

  lemma NamesPassed(b: seq<Byte>, es: seq<Entry>, gaps: seq<seq<Entry>>, bits: seq<bool>, name: Name, k: nat)
    requires Approach(b, es, gaps, bits, name, k)
    ensures Unnamed(es, name, k)
  {
    forall j | 0 <= j < k ensures es[j].name != name { assert Gap(b, Offset(es, j), es[j], gaps[j], bits, name); }
  }

  lemma PreviousSize(b: seq<Byte>, es: seq<Entry>, k: nat)
    requires Tiled(b, es) && 0 < k < |es|
    ensures es[k - 1].recLen <= Offset(es, k) && Offset(es, k) - es[k - 1].recLen + 6 <= |b|
    ensures U16(b, Offset(es, k) - es[k - 1].recLen + 4) == es[k - 1].recLen < 0x1_0000
  {
    hide Tiled, Laid, Offset;
    EntryThere(b, es, k - 1);
    OffsetStep(es, k - 1);
    assert EntryAt(b, Offset(es, k - 1)).recLen == es[k - 1].recLen;
  }

  /** One turn of the restorer's loop. */
  method Turned(e: Entry, ibm: array<Byte>, count: nat, name: Name, counter: nat, lastSize: nat) returns (t: Turn)
    requires count <= 8 * ibm.Length
    ensures t == RestoreTurn(e, Bits(ibm[..])[..count], name, counter, lastSize)
  {
    if e.fileType == FT_DIR {
      if e.name == name {
        return Stop(Directory);
      }
    } else if e.name <= name {
      return Stop(Found(counter, lastSize));
    }
    if !(0 < e.inode <= count) {
      return Stop(BadInode);
    }
    var live := TestBit(ibm, e.inode - 1);
    if live {
      return Go(counter + Tight(e.name), Tight(e.name));
    } else if e.recLen == 0 {
      return Stop(NoProgress);
    } else {
      return Go(counter + e.recLen, lastSize + e.recLen);
    }
  }

  /** The loop of the restorer's `search_entry`, for an inode bitmap of which `count` bits are in use. */
  method FindDeleted(b: array<Byte>, ibm: array<Byte>, count: nat, name: Name) returns (r: Outcome)
    requires count <= 8 * ibm.Length
    ensures r == RestoreSearch(b[..], Bits(ibm[..])[..count], name, 0, 0)
  {
    ghost var bits := Bits(ibm[..])[..count];
    var counter: nat, lastSize: nat := 0, 0;
    while counter < BLOCK_SIZE
      invariant RestoreSearch(b[..], bits, name, counter, lastSize) == RestoreSearch(b[..], bits, name, 0, 0)
      decreases BLOCK_SIZE - counter
    {
      var read := Read(b, counter);
      if read.None? {
        return PastEnd;
      }
      var turn := Turned(read.value, ibm, count, name, counter, lastSize);
      if turn.Stop? {
        return turn.outcome;
      }
      counter, lastSize := turn.counter, turn.lastSize;
    }
    return Missing;
  }

  /** The walk with the first assignment of `restore_file` at its end. */
  method UndeleteEntry(b: array<Byte>, ibm: array<Byte>, count: nat, name: Name) returns (r: Outcome)
    requires b != ibm && count <= 8 * ibm.Length
    modifies b
    ensures r == RestoreSearch(old(b[..]), Bits(ibm[..])[..count], name, 0, 0)
    ensures b[..] == RestoreBlock(old(b[..]), Bits(ibm[..])[..count], name)
  {
    r := FindDeleted(b, ibm, count, name);
    if r.Found? && r.lastSize <= r.offset && r.offset + HEADER <= b.Length {
      Put(b, r.offset - r.lastSize + 4, r.lastSize);
    }
  }

  // ---- The walk to the last entry ----

  datatype Place = Exists | Last(offset: nat) | Broken

  function LastSearch(b: seq<Byte>, name: Name, counter: nat): (p: Place)
    ensures p.Last? ==> Readable(b, p.offset)
    decreases BLOCK_SIZE - counter
  {
    if counter >= BLOCK_SIZE || !Readable(b, counter) then Broken
    else
      var e := EntryAt(b, counter);
      if e.name == name then Exists
      else if counter + e.recLen >= BLOCK_SIZE then Last(counter)
      else if e.recLen == 0 then Broken
      else LastSearch(b, name, counter + e.recLen)
  }

  /** `mk_dir` in a directory of one block: None when the name exists or there is no room. */
  function MkdirInsert(b: seq<Byte>, name: Name, inode: nat): Option<seq<Byte>>
    requires |b| == BLOCK_SIZE
  {
    match LastSearch(b, name, 0)
    case Last(o) => if NewFits(b, o, name) then Some(Added(b, o, name, inode, FT_DIR)) else None
    case _ => None
  }

  /** `get_file_entry` in a directory of one block.  When the name exists its loops are left and the
      entry is added behind the first one of the block. */
  function CpInsert(b: seq<Byte>, name: Name, inode: nat): Option<seq<Byte>>
    requires |b| == BLOCK_SIZE
  {
    match LastSearch(b, name, 0)
    case Last(o) => if NewFits(b, o, name) then Some(Added(b, o, name, inode, FT_REG_FILE)) else None
    case Exists => if Readable(b, 0) then Some(Added(b, 0, name, inode, FT_REG_FILE)) else None
    case Broken => None
  }

  lemma LastStep(b: seq<Byte>, name: Name, counter: nat, e: Entry)
    requires counter < BLOCK_SIZE && Readable(b, counter) && EntryAt(b, counter) == e && e.name != name
    ensures LastSearch(b, name, counter) ==
      if counter + e.recLen >= BLOCK_SIZE then Last(counter)
      else if e.recLen == 0 then Broken else LastSearch(b, name, counter + e.recLen)
  {
  }

  lemma OffsetBefore(b: seq<Byte>, es: seq<Entry>, k: nat)
    requires Tiled(b, es) && k < |es|
    ensures Offset(es, k) < BLOCK_SIZE && es[k].recLen > 0
  {
    EntryThere(b, es, k);
    assert Fits(es[k]);
  }

  lemma {:induction false} LastReaches(b: seq<Byte>, es: seq<Entry>, name: Name, k: nat)
    requires Tiled(b, es) && k < |es| && Unnamed(es, name, k)
    ensures LastSearch(b, name, 0) == LastSearch(b, name, Offset(es, k))
  {
    hide LastSearch, Tiled;
    if k > 0 {
      LastReaches(b, es, name, k - 1);
      EntryThere(b, es, k - 1);
      OffsetBefore(b, es, k - 1);
      OffsetBefore(b, es, k);
      LastStep(b, name, Offset(es, k - 1), es[k - 1]);
    }
  }

  lemma LastIsLast(b: seq<Byte>, es: seq<Entry>, name: Name)
    requires Tiled(b, es) && Unnamed(es, name, |es|)
    ensures LastSearch(b, name, 0) == Last(Offset(es, |es| - 1))
  {
    var k := |es| - 1;
    LastReaches(b, es, name, k);
    EntryThere(b, es, k);
    OffsetBefore(b, es, k);
    LastStep(b, name, Offset(es, k), es[k]);
  }

  lemma NameFound(b: seq<Byte>, es: seq<Entry>, name: Name)
    requires Tiled(b, es) && !Unnamed(es, name, |es|)
    ensures LastSearch(b, name, 0) == Exists
  {
    var k := FirstNamed(es, name);
    LastReaches(b, es, name, k);
    EntryThere(b, es, k);
    OffsetBefore(b, es, k);
  }

  lemma {:induction false} FirstNamed(es: seq<Entry>, name: Name) returns (k: nat)
    requires !Unnamed(es, name, |es|)
    ensures k < |es| && es[k].name == name && Unnamed(es, name, k)
  {
    k := 0;
    while es[k].name != name
      invariant k < |es| && Unnamed(es, name, k)
      decreases |es| - k
    {
      k := k + 1;
    }
  }

  /** A new directory's entry goes in exactly when its name is new and the last entry leaves room; the
      block then holds the old entries, the last one trimmed, and the new one. */
  lemma MkdirInsertExactly(b: seq<Byte>, es: seq<Entry>, name: Name, inode: nat)
    requires Tiled(b, es) && inode < 0x1_0000_0000
    ensures var k := |es| - 1; var room := Offset(es, k) + Tight(es[k].name) + Tight(name) <= BLOCK_SIZE;
      && (MkdirInsert(b, name, inode).Some? <==> Unnamed(es, name, |es|) && room)
      && (Unnamed(es, name, |es|) && room ==>
            Tiled(MkdirInsert(b, name, inode).value, Appended(es, k, name, inode, FT_DIR)))
  {
    var k := |es| - 1;
    if Unnamed(es, name, |es|) {
      LastIsLast(b, es, name);
      EntryThere(b, es, k);
      if Offset(es, k) + Tight(es[k].name) + Tight(name) <= BLOCK_SIZE { AddAppends(b, es, k, name, inode, FT_DIR); }
    } else {
      NameFound(b, es, name);
    }
  }

  /** A copy onto a new name appends one entry like that.  A copy onto a name that exists succeeds
      too, and every entry behind the first one is lost. */
  lemma CpInsertExactly(b: seq<Byte>, es: seq<Entry>, name: Name, inode: nat)
    requires Tiled(b, es) && inode < 0x1_0000_0000
    ensures var k := if Unnamed(es, name, |es|) then |es| - 1 else 0;
      var room := Offset(es, k) + Tight(es[k].name) + Tight(name) <= BLOCK_SIZE;
      && (CpInsert(b, name, inode).Some? <==> !Unnamed(es, name, |es|) || room)
      && (CpInsert(b, name, inode).Some? ==>
            Tiled(CpInsert(b, name, inode).value, Appended(es, k, name, inode, FT_REG_FILE)))
  {
    var k := if Unnamed(es, name, |es|) then |es| - 1 else 0;
    EntryThere(b, es, k);
    if Unnamed(es, name, |es|) { LastIsLast(b, es, name); } else { NameFound(b, es, name); }
    if CpInsert(b, name, inode).Some? { AddAppends(b, es, k, name, inode, FT_REG_FILE); }
  }

  /** So a copy adds exactly one entry to the block if and only if the name is new to it or the block
      had only one entry. */
  lemma CpAddsOne(b: seq<Byte>, es: seq<Entry>, name: Name, inode: nat, after: seq<Entry>)
    requires Tiled(b, es) && inode < 0x1_0000_0000 && CpInsert(b, name, inode).Some?
    requires Tiled(CpInsert(b, name, inode).value, after)
    ensures |after| == |es| + 1 <==> Unnamed(es, name, |es|) || |es| == 1
  {
    CpInsertExactly(b, es, name, inode);
    var k := if Unnamed(es, name, |es|) then |es| - 1 else 0;
    LaidOnce(CpInsert(b, name, inode).value, 0, after, Appended(es, k, name, inode, FT_REG_FILE));
  }

  /** The walk to the last entry, and the split there. */
  method FindLast(b: array<Byte>, name: Name) returns (p: Place)
    ensures p == LastSearch(b[..], name, 0)
  {
    var counter: nat := 0;
    while counter < BLOCK_SIZE
      invariant LastSearch(b[..], name, counter) == LastSearch(b[..], name, 0)
      decreases BLOCK_SIZE - counter
    {
      var read := Read(b, counter);
      if read.None? {
        return Broken;
      }
      var e := read.value;
      if e.name == name {
        return Exists;
      }
      if counter + e.recLen >= BLOCK_SIZE {
        return Last(counter);
      }
      if e.recLen == 0 {
        return Broken;
      }
      counter := counter + e.recLen;
    }
    return Broken;
  }

  /** `mk_dir` on a directory of one block, with the inode number already chosen. */
  method InsertDirectory(b: array<Byte>, name: Name, inode: nat) returns (ok: bool)
    requires b.Length == BLOCK_SIZE
    modifies b
    ensures MkdirInsert(old(b[..]), name, inode) == if ok then Some(b[..]) else None
    ensures !ok ==> b[..] == old(b[..])
  {
    var place := FindLast(b, name);
    ok := place.Last? && NewFits(b[..], place.offset, name);
    if ok {
      AddEntry(b, place.offset, name, inode, FT_DIR);
    }
  }

  /** `get_file_entry` on a directory of one block, likewise. */
  method InsertFile(b: array<Byte>, name: Name, inode: nat) returns (ok: bool)
    requires b.Length == BLOCK_SIZE
    modifies b
    ensures CpInsert(old(b[..]), name, inode) == if ok then Some(b[..]) else None
    ensures !ok ==> b[..] == old(b[..])
  {
    var place := FindLast(b, name);
    match place
    case Last(o) =>
      ok := NewFits(b[..], o, name);
      if ok {
        AddEntry(b, o, name, inode, FT_REG_FILE);
      }
    case Exists =>
      ok := Readable(b[..], 0);
      if ok {
        AddEntry(b, 0, name, inode, FT_REG_FILE);
      }
    case Broken =>
      ok := false;
  }
}
