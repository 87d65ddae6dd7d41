/** Whole traces through the pager, for any replacement policy: no abort, the coremap and the page
    tables stay inverse to each other, the counters add up, and the pager agrees with flat memory. */
module PagerRuns {
  import opened Options
  import opened PagerModel
  import opened PagerContents
  import opened Counting

  /** A trace line and what the policy chooses on it. */
  datatype Event = Event(ref: Ref, choice: Choice)

  predicate InRange(events: seq<Event>, memsize: nat) {
    forall i :: 0 <= i < |events| ==> events[i].choice.victim < memsize
  }

  /** `replay_trace`; `keep` selects the variant that leaves the on-swap flag set on page-in. */
  function Replay(memsize: nat, swapsize: nat, events: seq<Event>, keep: bool): (s: Option<Pager>)
    requires memsize > 0 && InRange(events, memsize)
    ensures s.Some? ==> Ok(s.value) && |s.value.coremap| == memsize
  {
    if events == [] then Some(Start(memsize, swapsize))
    else
      var n := |events| - 1;
      match Replay(memsize, swapsize, events[..n], keep)
      case None => None
      case Some(s) => Access(s, events[n].ref, events[n].choice, keep)
  }

  /** The pages a trace touches. */
  function Pages(events: seq<Event>): set<nat> {
    set e | e in events :: PageOf(e.ref.vaddr)
  }

  /** Flat memory: how often page p has been written. */
  function Writes(events: seq<Event>, p: nat): nat {
    if events == [] then 0
    else
      var n := |events| - 1;
      Writes(events[..n], p) + if events[n].ref.write && PageOf(events[n].ref.vaddr) == p then 1 else 0
  }

  // ---- Swap space ----

  function Owners(s: Pager): set<nat> {
    set p | p in s.entries && s.entries[p].swapOff != INVALID_SWAP
  }

  /** Every used slot belongs to one page. */
  ghost predicate SlotsOwned(s: Pager) {
    Count(s.used, true) == |Owners(s)|
  }

  lemma {:induction false} AllUsed(used: seq<bool>)
    requires forall i :: 0 <= i < |used| ==> used[i]
    ensures Count(used, true) == |used|
  {
    if used != [] { AllUsed(used[1..]); }
  }

  lemma OwnersWithin(s: Pager, p: nat)
    requires p in s.entries && s.entries[p].swapOff == INVALID_SWAP
    ensures |Owners(s)| < |s.entries|
  {
    Subset(Owners(s) + {p}, s.entries.Keys);
  }

  lemma {:induction false} Subset(a: set<nat>, b: set<nat>)
    requires a <= b
    ensures |a| <= |b|
  {
    if a != {} {
      var x :| x in a;
      Subset(a - {x}, b - {x});
    }
  }

  /** While no more pages have been touched than there are slots, page-out finds a slot. */
  lemma EnoughSwap(s: Pager)
    requires SlotsOwned(s) && |s.entries| <= |s.used|
    ensures RoomOnSwap(s)
  {
    if FreeSlot(s.used) == |s.used| {
      AllUsed(s.used);
      forall p | p in s.entries ensures s.entries[p].swapOff != INVALID_SWAP {
        if s.entries[p].swapOff == INVALID_SWAP { OwnersWithin(s, p); }
      }
    }
  }

  lemma EvictSlots(s: Pager, f: nat)
    requires Ok(s) && f < |s.coremap| && s.coremap[f].Some? && SlotsOwned(s)
    ensures SlotsOwned(Evict(s, f))
  {
    var p := s.coremap[f].value;
    assert EntryOk(s, p);
    var e := s.entries[p];
    var t := Evict(s, f);
    if e.dirty && e.swapOff == INVALID_SWAP && FreeSlot(s.used) < |s.used| {
      CountUpdate(s.used, FreeSlot(s.used), true, true);
      assert Owners(t) == Owners(s) + {p};
    } else {
      assert Owners(t) == Owners(s);
    }
  }

  lemma MakeRoomSlots(s: Pager, c: Choice)
    requires Ok(s) && c.victim < |s.coremap| && SlotsOwned(s)
    ensures SlotsOwned(MakeRoom(s, c).0)
  {
    if FreeFrame(s.coremap) == |s.coremap| {
      ClearRefsOk(s, c.cleared);
      assert Owners(ClearRefs(s, c.cleared)) == Owners(s);
      EvictSlots(ClearRefs(s, c.cleared), c.victim);
    }
  }

  lemma LoadSlots(s: Pager, f: nat, p: nat, vaddr: nat, keep: bool)
    requires Ok(s) && f < |s.coremap| && (p in s.entries ==> EntryOk(s, p))
    requires Load(s, f, p, vaddr, keep).Some? && SlotsOwned(s)
    ensures SlotsOwned(Load(s, f, p, vaddr, keep).value)
  {
    assert Owners(Load(s, f, p, vaddr, keep).value) == Owners(s);
  }

  lemma TouchSlots(s: Pager, r: Ref)
    requires PageOf(r.vaddr) in s.entries && s.entries[PageOf(r.vaddr)].frame < |s.phys| && SlotsOwned(s)
    ensures SlotsOwned(Touch(s, r))
  {
    assert Owners(Touch(s, r)) == Owners(s);
  }

  lemma AccessSlots(s: Pager, r: Ref, c: Choice, keep: bool)
    requires Ok(s) && c.victim < |s.coremap| && SlotsOwned(s) && Access(s, r, c, keep).Some?
    ensures SlotsOwned(Access(s, r, c, keep).value)
  {
    var m, f, t := Stages(s, r, c, keep);
    if EntryOf(s, PageOf(r.vaddr)).valid {
      assert Owners(t) == Owners(s);
    } else {
      MakeRoomSlots(s, c);
      LoadSlots(m, f, PageOf(r.vaddr), r.vaddr, keep);
    }
    TouchSlots(t, r);
  }

  // ---- Page tables, coremap and counters ----

  /** Frames fill from the lowest; misses and evictions account for every frame in use. */
  ghost predicate Counters(s: Pager, events: seq<Event>) {
    && s.refs == |events| && s.hits + s.misses == s.refs
    && s.misses == s.cleanEvictions + s.dirtyEvictions + FreeFrame(s.coremap)
    && (forall f :: FreeFrame(s.coremap) <= f < |s.coremap| ==> s.coremap[f].None?)
  }

  lemma {:induction false} FreeFrameIs(coremap: seq<Option<nat>>, n: nat)
    requires n <= |coremap| && (forall f :: 0 <= f < n ==> coremap[f].Some?) && (n < |coremap| ==> coremap[n].None?)
    ensures FreeFrame(coremap) == n
  {
    if n > 0 {
      forall f | 0 <= f < n - 1 ensures coremap[1..][f].Some? { assert coremap[f + 1].Some?; }
      FreeFrameIs(coremap[1..], n - 1);
    }
  }

  lemma MakeRoomCounters(s: Pager, c: Choice)
    requires Ok(s) && c.victim < |s.coremap|
    ensures var (t, f) := MakeRoom(s, c); var full := FreeFrame(s.coremap) == |s.coremap|;
      && t.refs == s.refs && t.hits == s.hits && t.misses == s.misses && |t.used| == |s.used|
      && t.cleanEvictions + t.dirtyEvictions == s.cleanEvictions + s.dirtyEvictions + (if full then 1 else 0)
      && (if full then f < |s.coremap| && t.coremap == s.coremap[f := None]
           else f == FreeFrame(s.coremap) && t.coremap == s.coremap)
      && t.entries.Keys == s.entries.Keys
  {
    if FreeFrame(s.coremap) == |s.coremap| { ClearRefsOk(s, c.cleared); }
  }

  lemma LoadCounters(s: Pager, f: nat, p: nat, vaddr: nat, keep: bool)
    requires Ok(s) && f < |s.coremap| && (p in s.entries ==> EntryOk(s, p))
    requires Load(s, f, p, vaddr, keep).Some?
    ensures var t := Load(s, f, p, vaddr, keep).value;
      && t.refs == s.refs && t.hits == s.hits && t.misses == s.misses + 1 && |t.used| == |s.used|
      && t.cleanEvictions == s.cleanEvictions && t.dirtyEvictions == s.dirtyEvictions
      && t.coremap == s.coremap[f := Some(p)]
      && t.entries.Keys == s.entries.Keys + {p}
  {
  }

  /** Frames in use after one more page is placed: one more, or still all of them. */
  lemma FramesGrow(coremap: seq<Option<nat>>, f: nat, p: nat)
    requires forall i :: FreeFrame(coremap) <= i < |coremap| ==> coremap[i].None?
    requires f < |coremap| && (FreeFrame(coremap) < |coremap| ==> f == FreeFrame(coremap))
    ensures var n := FreeFrame(coremap); var after := coremap[f := Some(p)];
      && FreeFrame(after) == (if n < |coremap| then n + 1 else n)
      && (forall i :: FreeFrame(after) <= i < |after| ==> after[i].None?)
  {
    var n := FreeFrame(coremap);
    FreeFrameIs(coremap[f := Some(p)], if n < |coremap| then n + 1 else n);
  }

  lemma MissCounters(s: Pager, p: nat, m: Pager, f: nat, t: Pager, full: bool)
    requires full <==> FreeFrame(s.coremap) == |s.coremap|
    requires f < |s.coremap| && (!full ==> f == FreeFrame(s.coremap))
    requires m.coremap == if full then s.coremap[f := None] else s.coremap
    requires m.misses == s.misses
    requires m.cleanEvictions + m.dirtyEvictions == s.cleanEvictions + s.dirtyEvictions + (if full then 1 else 0)
    requires t.misses == m.misses + 1 && t.coremap == m.coremap[f := Some(p)]
    requires t.cleanEvictions == m.cleanEvictions && t.dirtyEvictions == m.dirtyEvictions
    requires forall i :: FreeFrame(s.coremap) <= i < |s.coremap| ==> s.coremap[i].None?
    requires s.misses == s.cleanEvictions + s.dirtyEvictions + FreeFrame(s.coremap)
    ensures t.misses == t.cleanEvictions + t.dirtyEvictions + FreeFrame(t.coremap)
    ensures forall i :: FreeFrame(t.coremap) <= i < |t.coremap| ==> t.coremap[i].None?
  {
    assert t.coremap == s.coremap[f := Some(p)];
    FramesGrow(s.coremap, f, p);
  }

  lemma AccessCounters(s: Pager, r: Ref, c: Choice, keep: bool, events: seq<Event>, e: Event)
    requires Ok(s) && c.victim < |s.coremap| && Counters(s, events) && Access(s, r, c, keep).Some?
    ensures var t := Access(s, r, c, keep).value;
      Counters(t, events + [e]) && t.entries.Keys == s.entries.Keys + {PageOf(r.vaddr)} && |t.used| == |s.used|
  {
    var m, f, t := Stages(s, r, c, keep);
    if !EntryOf(s, PageOf(r.vaddr)).valid {
      MakeRoomCounters(s, c);
      LoadCounters(m, f, PageOf(r.vaddr), r.vaddr, keep);
      MissCounters(s, PageOf(r.vaddr), m, f, t, FreeFrame(s.coremap) == |s.coremap|);
    }
    TouchCounters(t, r);
  }

  lemma TouchCounters(s: Pager, r: Ref)
    requires PageOf(r.vaddr) in s.entries && s.entries[PageOf(r.vaddr)].frame < |s.phys|
    ensures var t := Touch(s, r);
      && t.refs == s.refs + 1 && t.hits == s.hits && t.misses == s.misses && t.used == s.used && t.coremap == s.coremap
      && t.cleanEvictions == s.cleanEvictions && t.dirtyEvictions == s.dirtyEvictions
      && t.entries.Keys == s.entries.Keys
  {
  }

  // ---- The on-swap flag ----

  /** A page marked on swap has a slot. */
  ghost predicate OnSwapHasSlot(s: Pager) {
    forall p :: p in s.entries && s.entries[p].onswap ==> s.entries[p].swapOff != INVALID_SWAP
  }

  lemma MakeRoomOnSwap(s: Pager, c: Choice)
    requires Ok(s) && c.victim < |s.coremap| && RoomOnSwap(s) && OnSwapHasSlot(s)
    ensures OnSwapHasSlot(MakeRoom(s, c).0)
  {
    if FreeFrame(s.coremap) == |s.coremap| {
      ClearRefsOk(s, c.cleared);
      EvictOnSwap(ClearRefs(s, c.cleared), c.victim);
    }
  }

  lemma EvictOnSwap(s: Pager, f: nat)
    requires Ok(s) && f < |s.coremap| && s.coremap[f].Some? && RoomOnSwap(s) && OnSwapHasSlot(s)
    ensures OnSwapHasSlot(Evict(s, f))
  {
    assert EntryOk(s, s.coremap[f].value);
  }

  lemma AccessSucceeds(s: Pager, r: Ref, c: Choice, keep: bool)
    requires Ok(s) && c.victim < |s.coremap| && RoomOnSwap(s) && OnSwapHasSlot(s)
    ensures Access(s, r, c, keep).Some?
  {
    if !EntryOf(s, PageOf(r.vaddr)).valid {
      MakeRoomOk(s, c);
      MakeRoomKeepsAbsent(s, c, PageOf(r.vaddr));
    }
  }

  lemma AccessKeepsOnSwap(s: Pager, r: Ref, c: Choice, keep: bool)
    requires Ok(s) && c.victim < |s.coremap| && RoomOnSwap(s) && OnSwapHasSlot(s) && Access(s, r, c, keep).Some?
    ensures OnSwapHasSlot(Access(s, r, c, keep).value)
  {
    var m, f, t := Stages(s, r, c, keep);
    if !EntryOf(s, PageOf(r.vaddr)).valid { MakeRoomOnSwap(s, c); }
  }

  lemma MakeRoomOffSwap(s: Pager, c: Choice)
    requires Ok(s) && c.victim < |s.coremap| && ResidentOffSwap(s)
    ensures ResidentOffSwap(MakeRoom(s, c).0)
  {
    if FreeFrame(s.coremap) == |s.coremap| {
      ClearRefsOk(s, c.cleared);
      assert ResidentOffSwap(ClearRefs(s, c.cleared));
    }
  }

  lemma AccessOffSwap(s: Pager, r: Ref, c: Choice)
    requires Ok(s) && c.victim < |s.coremap| && ResidentOffSwap(s) && Access(s, r, c, false).Some?
    ensures ResidentOffSwap(Access(s, r, c, false).value)
  {
    var m, f, t := Stages(s, r, c, false);
    if !EntryOf(s, PageOf(r.vaddr)).valid { MakeRoomOffSwap(s, c); }
  }

  lemma ClearRefsClean(s: Pager, frames: set<nat>)
    requires Ok(s) && CleanOnSwap(s)
    ensures Ok(ClearRefs(s, frames)) && CleanOnSwap(ClearRefs(s, frames))
  {
    ClearRefsOk(s, frames);
    forall p | p in s.entries ensures CleanCopy(ClearRefs(s, frames), p) { assert CleanCopy(s, p); }
  }

  lemma EvictClean(s: Pager, f: nat)
    requires Ok(s) && f < |s.coremap| && s.coremap[f].Some? && CleanOnSwap(s)
    ensures Ok(Evict(s, f)) && CleanOnSwap(Evict(s, f))
  {
    EvictOk(s, f);
    assert EntryOk(s, s.coremap[f].value);
    forall p | p in s.entries ensures CleanCopy(Evict(s, f), p) {
      assert EntryOk(s, p) && CleanCopy(s, p);
    }
  }

  lemma MakeRoomClean(s: Pager, c: Choice)
    requires Ok(s) && c.victim < |s.coremap| && CleanOnSwap(s)
    ensures Ok(MakeRoom(s, c).0) && CleanOnSwap(MakeRoom(s, c).0)
  {
    MakeRoomOk(s, c);
    if FreeFrame(s.coremap) == |s.coremap| {
      ClearRefsClean(s, c.cleared);
      EvictClean(ClearRefs(s, c.cleared), c.victim);
    }
  }

  lemma LoadClean(s: Pager, f: nat, p: nat, vaddr: nat)
    requires Ok(s) && f < |s.coremap| && s.coremap[f].None? && !EntryOf(s, p).valid && CleanOnSwap(s)
    requires p in s.entries ==> EntryOk(s, p)
    requires Load(s, f, p, vaddr, true).Some?
    ensures Ok(Load(s, f, p, vaddr, true).value) && CleanOnSwap(Load(s, f, p, vaddr, true).value)
  {
    LoadOk(s, f, p, vaddr, true);
    var t := Load(s, f, p, vaddr, true).value;
    forall q | q in t.entries ensures CleanCopy(t, q) {
      if q in s.entries { assert EntryOk(s, q) && CleanCopy(s, q); }
    }
  }

  lemma TouchClean(s: Pager, r: Ref)
    requires Ok(s) && PageOf(r.vaddr) in s.entries && s.entries[PageOf(r.vaddr)].valid
    requires s.entries[PageOf(r.vaddr)].frame < |s.phys| && CleanOnSwap(s)
    ensures Ok(Touch(s, r)) && CleanOnSwap(Touch(s, r))
  {
    TouchOk(s, r);
    assert EntryOk(s, PageOf(r.vaddr));
    forall q | q in s.entries ensures CleanCopy(Touch(s, r), q) {
      assert EntryOk(s, q) && CleanCopy(s, q);
    }
  }

  lemma AccessClean(s: Pager, r: Ref, c: Choice)
    requires Ok(s) && c.victim < |s.coremap| && CleanOnSwap(s) && Access(s, r, c, true).Some?
    ensures CleanOnSwap(Access(s, r, c, true).value)
  {
    var m, f, t := Stages(s, r, c, true);
    if EntryOf(s, PageOf(r.vaddr)).valid {
      forall q | q in t.entries ensures CleanCopy(t, q) { assert CleanCopy(s, q); }
    } else {
      MakeRoomClean(s, c);
      LoadClean(m, f, PageOf(r.vaddr), r.vaddr);
    }
    TouchClean(t, r);
  }

  // ---- Whole traces ----

  ghost predicate Inv(s: Pager, events: seq<Event>, keep: bool) {
    && Ok(s) && Counters(s, events) && SlotsOwned(s)
    && s.entries.Keys == Pages(events)
    && (|Pages(events)| <= |s.used| ==> OnSwapHasSlot(s))
    && (!keep ==> ResidentOffSwap(s))
    && (keep ==> CleanOnSwap(s))
  }

  lemma PagesGrow(events: seq<Event>, e: Event)
    ensures Pages(events + [e]) == Pages(events) + {PageOf(e.ref.vaddr)}
    ensures |Pages(events)| <= |Pages(events + [e])|
  {
    assert forall x :: x in events + [e] <==> x in events || x == e;
    Subset(Pages(events), Pages(events + [e]));
  }

  lemma StartInv(memsize: nat, swapsize: nat, keep: bool)
    ensures Inv(Start(memsize, swapsize), [], keep)
  {
    var s := Start(memsize, swapsize);
    FreeFrameIs(s.coremap, 0);
    assert Owners(s) == {};
    NoneUsed(s.used);
  }

  lemma {:induction false} NoneUsed(used: seq<bool>)
    requires forall i :: 0 <= i < |used| ==> !used[i]
    ensures Count(used, true) == 0
  {
    if used != [] { NoneUsed(used[1..]); }
  }

  lemma AccessInv(s: Pager, events: seq<Event>, e: Event, keep: bool)
    requires Inv(s, events, keep) && e.choice.victim < |s.coremap| && Access(s, e.ref, e.choice, keep).Some?
    ensures Inv(Access(s, e.ref, e.choice, keep).value, events + [e], keep)
    ensures |Access(s, e.ref, e.choice, keep).value.used| == |s.used|
  {
    PagesGrow(events, e);
    AccessCounters(s, e.ref, e.choice, keep, events, e);
    AccessSlots(s, e.ref, e.choice, keep);
    if keep { AccessClean(s, e.ref, e.choice); } else { AccessOffSwap(s, e.ref, e.choice); }
    if |Pages(events + [e])| <= |s.used| {
      assert |s.entries| == |s.entries.Keys|;
      EnoughSwap(s);
      AccessKeepsOnSwap(s, e.ref, e.choice, keep);
    }
  }

  lemma {:induction false} ReplayInv(memsize: nat, swapsize: nat, events: seq<Event>, keep: bool)
    requires memsize > 0 && InRange(events, memsize) && Replay(memsize, swapsize, events, keep).Some?
    ensures Inv(Replay(memsize, swapsize, events, keep).value, events, keep)
    ensures |Replay(memsize, swapsize, events, keep).value.used| == swapsize
  {
    hide Access, Inv, Ok;
    if events == [] {
      StartInv(memsize, swapsize, keep);
    } else {
      var n := |events| - 1;
      ReplayInv(memsize, swapsize, events[..n], keep);
      AccessInv(Replay(memsize, swapsize, events[..n], keep).value, events[..n], events[n], keep);
      assert events == events[..n] + [events[n]];
    }
  }

  /** With a swap slot for every distinct page, no trace and no policy makes the swap code abort. */
  lemma {:induction false} NeverAborts(memsize: nat, swapsize: nat, events: seq<Event>, keep: bool)
    requires memsize > 0 && InRange(events, memsize) && |Pages(events)| <= swapsize
    ensures Replay(memsize, swapsize, events, keep).Some?
  {
    if events != [] {
      var n := |events| - 1;
      PagesGrow(events[..n], events[n]);
      assert events == events[..n] + [events[n]];
      NeverAborts(memsize, swapsize, events[..n], keep);
      ReplayInv(memsize, swapsize, events[..n], keep);
      var s := Replay(memsize, swapsize, events[..n], keep).value;
      assert |s.entries| == |s.entries.Keys|;
      EnoughSwap(s);
      AccessSucceeds(s, events[n].ref, events[n].choice, keep);
    }
  }

  /** On every trace and for every policy: a frame is in use exactly when one valid entry names it,
      the coremap points back at that entry, references are hits and misses, and misses are
      evictions and frames in use. */
  lemma CoremapInverse(memsize: nat, swapsize: nat, events: seq<Event>, keep: bool, f: nat, p: nat)
    requires memsize > 0 && InRange(events, memsize) && Replay(memsize, swapsize, events, keep).Some? && f < memsize
    ensures var s := Replay(memsize, swapsize, events, keep).value;
      && (s.coremap[f] == Some(p) <==> p in s.entries && s.entries[p].valid && s.entries[p].frame == f)
      && s.hits + s.misses == |events|
      && s.misses == s.cleanEvictions + s.dirtyEvictions + FreeFrame(s.coremap)
      && (s.coremap[f].Some? <==> f < FreeFrame(s.coremap))
  {
    ReplayInv(memsize, swapsize, events, keep);
    var s := Replay(memsize, swapsize, events, keep).value;
    if p in s.entries { assert EntryOk(s, p); }
  }
}
