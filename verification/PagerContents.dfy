/** What a page holds, wherever it is, and how a reference changes it. */
module PagerContents {
  import opened Options
  import opened PagerModel

  /** The contents the next reference to page p would find: in its frame, in its swap slot, or none,
      in which case the reference zero-fills. */
  function Content(s: Pager, p: nat): Option<Page>
    requires Ok(s)
  {
    if p !in s.entries then None
    else
      var e := s.entries[p];
      assert EntryOk(s, p);
      if e.valid then Some(s.phys[e.frame])
      else if e.onswap && e.swapOff != INVALID_SWAP then Some(s.slots[e.swapOff / SIMPAGESIZE])
      else None
  }

  /** A dirty page without a slot will find a free one. */
  ghost predicate RoomOnSwap(s: Pager) {
    FreeSlot(s.used) == |s.used| ==>
      forall p :: p in s.entries && s.entries[p].dirty ==> s.entries[p].swapOff != INVALID_SWAP
  }

  /** As coded a resident page is never marked on swap. */
  ghost predicate ResidentOffSwap(s: Pager) {
    forall p :: p in s.entries && s.entries[p].valid ==> !s.entries[p].onswap
  }

  /** In the variant a clean resident page has an up-to-date copy on swap and says so. */
  ghost predicate CleanOnSwap(s: Pager)
    requires Ok(s)
  {
    forall p :: p in s.entries ==> CleanCopy(s, p)
  }

  ghost predicate CleanCopy(s: Pager, p: nat)
    requires Ok(s) && p in s.entries
  {
    assert EntryOk(s, p);
    var e := s.entries[p];
    e.valid && !e.dirty ==> e.onswap && e.swapOff != INVALID_SWAP && s.slots[e.swapOff / SIMPAGESIZE] == s.phys[e.frame]
  }

  /** The page a reference evicts although it is clean. */
  function CleanVictim(s: Pager, vaddr: nat, c: Choice): Option<nat>
    requires Ok(s) && c.victim < |s.coremap|
  {
    if EntryOf(s, PageOf(vaddr)).valid || FreeFrame(s.coremap) < |s.coremap| then None
    else
      var v := s.coremap[c.victim].value;
      if s.entries[v].dirty then None else Some(v)
  }

  lemma ClearRefsContent(s: Pager, frames: set<nat>, q: nat)
    requires Ok(s)
    ensures Ok(ClearRefs(s, frames)) && Content(ClearRefs(s, frames), q) == Content(s, q)
  {
    ClearRefsOk(s, frames);
  }

  lemma EvictDirtyContent(s: Pager, f: nat, q: nat)
    requires Ok(s) && f < |s.coremap| && s.coremap[f].Some? && s.entries[s.coremap[f].value].dirty
    requires RoomOnSwap(s)
    ensures Ok(Evict(s, f)) && Content(Evict(s, f), q) == Content(s, q)
  {
    EvictOk(s, f);
    var p := s.coremap[f].value;
    assert EntryOk(s, p);
    if q in s.entries { assert EntryOk(s, q); }
  }

  lemma EvictCleanContent(s: Pager, f: nat, q: nat)
    requires Ok(s) && f < |s.coremap| && s.coremap[f].Some? && !s.entries[s.coremap[f].value].dirty
    ensures Ok(Evict(s, f))
    ensures q != s.coremap[f].value ==> Content(Evict(s, f), q) == Content(s, q)
    ensures q == s.coremap[f].value && ResidentOffSwap(s) ==> Content(Evict(s, f), q) == None
    ensures q == s.coremap[f].value && CleanOnSwap(s) ==> Content(Evict(s, f), q) == Content(s, q)
  {
    EvictOk(s, f);
    var p := s.coremap[f].value;
    assert EntryOk(s, p);
    if CleanOnSwap(s) { assert CleanCopy(s, p); }
    if q in s.entries { assert EntryOk(s, q); }
  }

  lemma LoadContent(s: Pager, f: nat, p: nat, vaddr: nat, keep: bool, q: nat)
    requires Ok(s) && f < |s.coremap| && s.coremap[f].None? && !EntryOf(s, p).valid
    requires p in s.entries ==> EntryOk(s, p)
    requires Load(s, f, p, vaddr, keep).Some?
    ensures var t := Load(s, f, p, vaddr, keep).value;
      Ok(t) && Content(t, q) ==
        if q != p then Content(s, q)
        else if Content(s, p).None? then Some(Page(0, vaddr)) else Content(s, p)
  {
    LoadOk(s, f, p, vaddr, keep);
    if q in s.entries { assert EntryOk(s, q); }
  }

  lemma TouchContent(s: Pager, r: Ref, q: nat)
    requires Ok(s) && PageOf(r.vaddr) in s.entries && s.entries[PageOf(r.vaddr)].valid
    requires s.entries[PageOf(r.vaddr)].frame < |s.phys|
    ensures Ok(Touch(s, r))
    ensures q != PageOf(r.vaddr) ==> Content(Touch(s, r), q) == Content(s, q)
    ensures var c := Content(s, PageOf(r.vaddr));
      c.Some? && Content(Touch(s, r), PageOf(r.vaddr)) ==
        Some(c.value.(version := c.value.version + if r.write then 1 else 0))
    ensures Touch(s, r).errors == s.errors + if Content(s, PageOf(r.vaddr)).value.tag == r.vaddr then 0 else 1
  {
    TouchOk(s, r);
    var p := PageOf(r.vaddr);
    assert EntryOk(s, p);
    if q in s.entries { assert EntryOk(s, q); }
  }

  /** Making room changes no page's contents, except that a clean victim loses its own. */
  lemma MakeRoomContent(s: Pager, c: Choice, vaddr: nat, q: nat)
    requires Ok(s) && c.victim < |s.coremap| && !EntryOf(s, PageOf(vaddr)).valid && RoomOnSwap(s)
    ensures Ok(MakeRoom(s, c).0)
    ensures CleanVictim(s, vaddr, c) != Some(q) ==> Content(MakeRoom(s, c).0, q) == Content(s, q)
    ensures CleanVictim(s, vaddr, c) == Some(q) && ResidentOffSwap(s) ==> Content(MakeRoom(s, c).0, q) == None
    ensures CleanVictim(s, vaddr, c) == Some(q) && CleanOnSwap(s) ==> Content(MakeRoom(s, c).0, q) == Content(s, q)
  {
    MakeRoomOk(s, c);
    if FreeFrame(s.coremap) == |s.coremap| {
      var t := ClearRefs(s, c.cleared);
      ClearRefsContent(s, c.cleared, q);
      if s.entries[s.coremap[c.victim].value].dirty {
        EvictDirtyContent(t, c.victim, q);
      } else {
        if CleanOnSwap(s) {
          forall p | p in t.entries ensures CleanCopy(t, p) { assert CleanCopy(s, p); }
        }
        EvictCleanContent(t, c.victim, q);
      }
    }
  }

  /** What the referenced page holds when the reference finds it. */
  function Found(s: Pager, vaddr: nat): Page
    requires Ok(s)
  {
    var c := Content(s, PageOf(vaddr));
    if c.None? then Page(0, vaddr) else c.value
  }

  /** One reference: the referenced page counts a write, a clean victim may lose its contents, and
      no other page changes; the address check compares what was found. */
  lemma AccessContent(s: Pager, r: Ref, c: Choice, keep: bool, q: nat)
    requires Ok(s) && c.victim < |s.coremap| && RoomOnSwap(s) && Access(s, r, c, keep).Some?
    ensures var t := Access(s, r, c, keep).value; var p := PageOf(r.vaddr);
      && Content(t, p) == Some(Found(s, r.vaddr).(version := Found(s, r.vaddr).version + if r.write then 1 else 0))
      && (q != p && CleanVictim(s, r.vaddr, c) != Some(q) ==> Content(t, q) == Content(s, q))
      && (q != p && CleanVictim(s, r.vaddr, c) == Some(q) && ResidentOffSwap(s) ==> Content(t, q) == None)
      && (q != p && CleanOnSwap(s) ==> Content(t, q) == Content(s, q))
      && t.errors == s.errors + if Found(s, r.vaddr).tag == r.vaddr then 0 else 1
  {
    var p := PageOf(r.vaddr);
    var m, f, t := Stages(s, r, c, keep);
    if !EntryOf(s, p).valid {
      MakeRoomContent(s, c, r.vaddr, q);
      MakeRoomContent(s, c, r.vaddr, p);
      LoadContent(m, f, p, r.vaddr, keep, q);
      LoadContent(m, f, p, r.vaddr, keep, p);
      MakeRoomErrors(s, c);
    }
    TouchContent(t, r, q);
  }

  lemma MakeRoomErrors(s: Pager, c: Choice)
    requires Ok(s) && c.victim < |s.coremap|
    ensures MakeRoom(s, c).0.errors == s.errors
  {
    if FreeFrame(s.coremap) == |s.coremap| { ClearRefsOk(s, c.cleared); }
  }
}
