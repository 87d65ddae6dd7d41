/** The demand pager on values: `find_physpage`, `allocate_frame`, `swap_pagein`, `swap_pageout` and
    `access_mem`, for any replacement policy.

    What the policy decides on a reference is an input (`Choice`): which frame it evicts if it is
    asked to, and which frames' reference bits it clears on the way (the clock does). */
module PagerModel {
  import opened Options

  const PAGE_SIZE: nat := 4096
  const SIMPAGESIZE: int := 16
  const INVALID_SWAP: int := -1

  /** The contents of a simulated page: the version counter and the recorded virtual address. */
  datatype Page = Page(version: nat, tag: nat)

  /** A page table entry: the frame number and the four flags of the `frame` word, and `swap_off`. */
  datatype Entry = Entry(frame: nat, valid: bool, dirty: bool, ref: bool, onswap: bool, swapOff: int)

  /** What `init_second_level` stores in every entry. */
  const FRESH := Entry(0, false, false, false, false, INVALID_SWAP)

  /** One line of the trace; `write` for types S and M. */
  datatype Ref = Ref(vaddr: nat, write: bool)

  datatype Choice = Choice(victim: nat, cleared: set<nat>)

  datatype Pager = Pager(
    entries: map<nat, Entry>,       // by page number; a page never touched has no entry here
    coremap: seq<Option<nat>>,      // the page each frame holds
    phys: seq<Page>,
    used: seq<bool>,                // the swap bitmap
    slots: seq<Page>,               // the swap file
    hits: nat, misses: nat, refs: nat, cleanEvictions: nat, dirtyEvictions: nat,
    errors: nat)                    // failed checks of the recorded address

  function PageOf(vaddr: nat): nat { vaddr / PAGE_SIZE }

  function Start(memsize: nat, swapsize: nat): Pager {
    Pager(map[], seq(memsize, _ => None), seq(memsize, _ => Page(0, 0)),
          seq(swapsize, _ => false), seq(swapsize, _ => Page(0, 0)), 0, 0, 0, 0, 0, 0)
  }

  function EntryOf(s: Pager, p: nat): Entry {
    if p in s.entries then s.entries[p] else FRESH
  }

  /** The lowest free frame, or the number of frames if there is none. */
  function FreeFrame(coremap: seq<Option<nat>>): (f: nat)
    ensures f <= |coremap|
    ensures f < |coremap| ==> coremap[f].None?
    ensures forall i :: 0 <= i < f ==> coremap[i].Some?
  {
    if coremap == [] || coremap[0].None? then 0
    else
      var f := FreeFrame(coremap[1..]);
      assert forall i :: 1 <= i <= f ==> coremap[i] == coremap[1..][i - 1];
      f + 1
  }

  /** The lowest clear bit of the swap bitmap, or its size if there is none. */
  function FreeSlot(used: seq<bool>): (k: nat)
    ensures k <= |used|
    ensures k < |used| ==> !used[k]
    ensures forall i :: 0 <= i < k ==> used[i]
  {
    if used == [] || !used[0] then 0
    else
      var k := FreeSlot(used[1..]);
      assert forall i :: 1 <= i <= k ==> used[i] == used[1..][i - 1];
      k + 1
  }

  /** Byte offset and slot number of the swap file. */
  predicate SlotOffset(s: Pager, off: int) {
    off % SIMPAGESIZE == 0 && 0 <= off / SIMPAGESIZE < |s.slots|
  }

  /** `swap_pageout`: the page goes to its slot, or to the lowest free one; INVALID_SWAP if the swap
      file is full. */
  function PageOut(s: Pager, frame: nat, off: int): (r: (Pager, int))
    requires frame < |s.phys| && |s.used| == |s.slots|
    requires off != INVALID_SWAP ==> SlotOffset(s, off)
  {
    if off != INVALID_SWAP then
      (s.(slots := s.slots[off / SIMPAGESIZE := s.phys[frame]]), off)
    else
      var k := FreeSlot(s.used);
      if k == |s.used| then (s, INVALID_SWAP)
      else (s.(used := s.used[k := true], slots := s.slots[k := s.phys[frame]]), k * SIMPAGESIZE)
  }

  /** The page tables, the coremap and the swap offsets fit together. */
  ghost predicate Ok(s: Pager) {
    && |s.phys| == |s.coremap| && |s.slots| == |s.used|
    && (forall f :: 0 <= f < |s.coremap| && s.coremap[f].Some? ==>
          var p := s.coremap[f].value;
          p in s.entries && s.entries[p].valid && s.entries[p].frame == f)
    && (forall p :: p in s.entries ==> EntryOk(s, p))
    && (forall p, q :: p in s.entries && q in s.entries && p != q && s.entries[p].swapOff != INVALID_SWAP ==>
          s.entries[p].swapOff != s.entries[q].swapOff)
  }

  ghost predicate EntryOk(s: Pager, p: nat)
    requires p in s.entries && |s.slots| == |s.used|
  {
    var e := s.entries[p];
    && (e.valid ==> e.frame < |s.coremap| && s.coremap[e.frame] == Some(p))
    && (e.dirty ==> e.valid)
    && (e.swapOff != INVALID_SWAP ==> SlotOffset(s, e.swapOff) && s.used[e.swapOff / SIMPAGESIZE])
  }

  /** The policy clears the reference bits of some frames. */
  function ClearRefs(s: Pager, frames: set<nat>): Pager {
    s.(entries := map p | p in s.entries ::
         if s.entries[p].valid && s.entries[p].frame in frames then s.entries[p].(ref := false) else s.entries[p])
  }

  /** The eviction in `allocate_frame`: a dirty victim is paged out and marked as on swap, and the
      victim's entry loses its dirty and valid bits. */
  function Evict(s: Pager, f: nat): Pager
    requires f < |s.coremap| == |s.phys| && s.coremap[f].Some? && s.coremap[f].value in s.entries
    requires |s.slots| == |s.used|
    requires var e := s.entries[s.coremap[f].value]; e.swapOff != INVALID_SWAP ==> SlotOffset(s, e.swapOff)
  {
    var p := s.coremap[f].value;
    var e := s.entries[p];
    if e.dirty then
      var (t, off) := PageOut(s, f, e.swapOff);
      t.(entries := t.entries[p := e.(swapOff := off, onswap := true, dirty := false, valid := false)],
         coremap := t.coremap[f := None],
         dirtyEvictions := t.dirtyEvictions + 1)
    else
      s.(entries := s.entries[p := e.(valid := false)],
         coremap := s.coremap[f := None],
         cleanEvictions := s.cleanEvictions + 1)
  }

  /** `allocate_frame` up to the point where the frame is free: the state and the frame. */
  function MakeRoom(s: Pager, c: Choice): (r: (Pager, nat))
    requires Ok(s) && c.victim < |s.coremap|
  {
    var f := FreeFrame(s.coremap);
    if f < |s.coremap| then (s, f)
    else
      var t := ClearRefs(s, c.cleared);
      (Evict(t, c.victim), c.victim)
  }

  /** The page goes into the free frame f: zero-filled with its address recorded, or read back from
      swap.  None when `swap_pagein` is asked for an invalid offset and its assertion fails.
      The code clears the on-swap flag here; `keep` is the variant that does not. */
  function Load(s: Pager, f: nat, p: nat, vaddr: nat, keep: bool): Option<Pager>
    requires f < |s.coremap| == |s.phys| && |s.slots| == |s.used|
    requires var e := EntryOf(s, p); e.swapOff != INVALID_SWAP ==> SlotOffset(s, e.swapOff)
  {
    var e := EntryOf(s, p);
    var placed := s.(coremap := s.coremap[f := Some(p)], misses := s.misses + 1);
    if !e.onswap then
      Some(placed.(phys := s.phys[f := Page(0, vaddr)],
                   entries := s.entries[p := Entry(f, true, true, false, false, e.swapOff)]))
    else if e.swapOff == INVALID_SWAP then None
    else
      Some(placed.(phys := s.phys[f := s.slots[e.swapOff / SIMPAGESIZE]],
                   entries := s.entries[p := Entry(f, true, false, false, keep, e.swapOff)]))
  }

  /** The miss path of `find_physpage`. */
  function Miss(s: Pager, vaddr: nat, c: Choice, keep: bool): Option<Pager>
    requires Ok(s) && c.victim < |s.coremap|
    requires !EntryOf(s, PageOf(vaddr)).valid
  {
    var (t, f) := MakeRoom(s, c);
    MakeRoomOk(s, c);
    Load(t, f, PageOf(vaddr), vaddr, keep)
  }

  /** `find_physpage` up to the reference: the page is resident in the result. */
  function Resident(s: Pager, vaddr: nat, c: Choice, keep: bool): Option<Pager>
    requires Ok(s) && c.victim < |s.coremap|
  {
    if EntryOf(s, PageOf(vaddr)).valid then Some(s.(hits := s.hits + 1))
    else Miss(s, vaddr, c, keep)
  }

  /** The end of `find_physpage` and `access_mem`: flags, address check and version. */
  function Touch(s: Pager, r: Ref): Pager
    requires PageOf(r.vaddr) in s.entries && s.entries[PageOf(r.vaddr)].frame < |s.phys|
  {
    var p := PageOf(r.vaddr);
    var e := s.entries[p];
    var page := s.phys[e.frame];
    s.(refs := s.refs + 1,
       entries := s.entries[p := e.(valid := true, ref := true, dirty := e.dirty || r.write)],
       errors := if page.tag != r.vaddr then s.errors + 1 else s.errors,
       phys := if r.write then s.phys[e.frame := page.(version := page.version + 1)] else s.phys)
  }

  // ---- The pieces keep the tables consistent ----

  lemma ClearRefsOk(s: Pager, frames: set<nat>)
    requires Ok(s)
    ensures Ok(ClearRefs(s, frames))
  {
    var t := ClearRefs(s, frames);
    forall p | p in t.entries ensures EntryOk(t, p) { assert EntryOk(s, p); }
  }

  lemma EvictOk(s: Pager, f: nat)
    requires Ok(s) && f < |s.coremap| && s.coremap[f].Some?
    ensures Ok(Evict(s, f))
  {
    var p := s.coremap[f].value;
    assert EntryOk(s, p);
    var t := Evict(s, f);
    forall q | q in t.entries ensures EntryOk(t, q) { assert EntryOk(s, q); }
    forall q, r | q in t.entries && r in t.entries && q != r && t.entries[q].swapOff != INVALID_SWAP
      ensures t.entries[q].swapOff != t.entries[r].swapOff
    {
      EvictApart(s, f, q, r);
    }
  }

  /** Paging out takes a slot of no other page. */
  lemma EvictApart(s: Pager, f: nat, q: nat, r: nat)
    requires Ok(s) && f < |s.coremap| && s.coremap[f].Some? && q in s.entries && r in s.entries && q != r
    requires EntryOk(s, s.coremap[f].value)
    ensures var t := Evict(s, f);
      q in t.entries && r in t.entries
        && (t.entries[q].swapOff != INVALID_SWAP ==> t.entries[q].swapOff != t.entries[r].swapOff)
  {
    assert EntryOk(s, q) && EntryOk(s, r);
  }

  lemma MakeRoomOk(s: Pager, c: Choice)
    requires Ok(s) && c.victim < |s.coremap|
    ensures var (t, f) := MakeRoom(s, c);
      Ok(t) && f < |t.coremap| == |s.coremap| && t.coremap[f].None?
    ensures forall p: nat {:trigger EntryOf(MakeRoom(s, c).0, p)} ::
      var e := EntryOf(MakeRoom(s, c).0, p); e.swapOff != INVALID_SWAP ==> SlotOffset(MakeRoom(s, c).0, e.swapOff)
  {
    var (t, f) := MakeRoom(s, c);
    if FreeFrame(s.coremap) == |s.coremap| {
      ClearRefsOk(s, c.cleared);
      EvictOk(ClearRefs(s, c.cleared), c.victim);
    }
    forall p: nat ensures EntryOf(t, p).swapOff != INVALID_SWAP ==> SlotOffset(t, EntryOf(t, p).swapOff) {
      if p in t.entries { assert EntryOk(t, p); }
    }
  }

  lemma LoadOk(s: Pager, f: nat, p: nat, vaddr: nat, keep: bool)
    requires Ok(s) && f < |s.coremap| && s.coremap[f].None? && !EntryOf(s, p).valid
    ensures Load(s, f, p, vaddr, keep).Some? ==> Ok(Load(s, f, p, vaddr, keep).value)
  {
    if Load(s, f, p, vaddr, keep).Some? {
      var t := Load(s, f, p, vaddr, keep).value;
      forall q | q in t.entries ensures EntryOk(t, q) {
        if q in s.entries { assert EntryOk(s, q); }
      }
    }
  }

  lemma TouchOk(s: Pager, r: Ref)
    requires Ok(s) && PageOf(r.vaddr) in s.entries && s.entries[PageOf(r.vaddr)].valid
    requires s.entries[PageOf(r.vaddr)].frame < |s.phys|
    ensures Ok(Touch(s, r))
  {
    var t := Touch(s, r);
    forall q | q in t.entries ensures EntryOk(t, q) { assert EntryOk(s, q); }
  }

  /** A reference leaves the page resident and the tables consistent. */
  lemma ResidentOk(s: Pager, vaddr: nat, c: Choice, keep: bool)
    requires Ok(s) && c.victim < |s.coremap|
    ensures Resident(s, vaddr, c, keep).Some? ==>
      var t := Resident(s, vaddr, c, keep).value;
      Ok(t) && |t.coremap| == |s.coremap| && PageOf(vaddr) in t.entries && t.entries[PageOf(vaddr)].valid
      && t.entries[PageOf(vaddr)].frame < |t.phys|
  {
    var p := PageOf(vaddr);
    if EntryOf(s, p).valid {
      assert EntryOk(s, p);
    } else {
      MakeRoomOk(s, c);
      var (t, f) := MakeRoom(s, c);
      MakeRoomKeepsAbsent(s, c, p);
      LoadOk(t, f, p, vaddr, keep);
    }
  }

  lemma MakeRoomKeepsAbsent(s: Pager, c: Choice, p: nat)
    requires Ok(s) && c.victim < |s.coremap| && !EntryOf(s, p).valid
    ensures EntryOf(MakeRoom(s, c).0, p) == EntryOf(s, p)
  {
  }

  /** `access_mem`: one trace line.  None when an assertion of the swap code fails. */
  function Access(s: Pager, r: Ref, c: Choice, keep: bool): (t: Option<Pager>)
    requires Ok(s) && c.victim < |s.coremap|
    ensures t.Some? ==> Ok(t.value) && |t.value.coremap| == |s.coremap|
  {
    ResidentOk(s, r.vaddr, c, keep);
    match Resident(s, r.vaddr, c, keep)
    case None => None
    case Some(t) =>
      TouchOk(t, r);
      Some(Touch(t, r))
  }

  /** A reference, stage by stage: the state t in which the page is resident, reached directly on a
      hit, and on a miss by loading it into the frame f that `MakeRoom` freed in m. */
  lemma Stages(s: Pager, r: Ref, c: Choice, keep: bool) returns (m: Pager, f: nat, t: Pager)
    requires Ok(s) && c.victim < |s.coremap| && Access(s, r, c, keep).Some?
    ensures var p := PageOf(r.vaddr);
      && p in t.entries && t.entries[p].valid && t.entries[p].frame < |t.phys|
      && Ok(t) && Access(s, r, c, keep) == Some(Touch(t, r))
      && (EntryOf(s, p).valid ==> t == s.(hits := s.hits + 1))
      && (!EntryOf(s, p).valid ==>
            && (m, f) == MakeRoom(s, c)
            && Ok(m) && f < |m.coremap| == |s.coremap| && m.coremap[f].None?
            && EntryOf(m, p) == EntryOf(s, p)
            && (p in m.entries ==> EntryOk(m, p))
            && Load(m, f, p, r.vaddr, keep) == Some(t))
  {
    ResidentOk(s, r.vaddr, c, keep);
    m, f := s, 0;
    t := Resident(s, r.vaddr, c, keep).value;
    if !EntryOf(s, PageOf(r.vaddr)).valid {
      m, f := MakeRoom(s, c).0, MakeRoom(s, c).1;
      MakeRoomOk(s, c);
      MakeRoomKeepsAbsent(s, c, PageOf(r.vaddr));
    }
  }
}
