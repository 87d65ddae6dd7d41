/** The pager against flat memory: the address check of `access_mem` and the version counters. */
module FlatMemory {
  import opened Options
  import opened PagerModel
  import opened PagerContents
  import opened PagerRuns

  /** What the simulator would read back as page p's version. */
  function Version(s: Pager, p: nat): nat
    requires Ok(s)
  {
    match Content(s, p)
    case None => 0
    case Some(page) => page.version
  }

  /** Pages that were evicted clean after having been written: the code as it stands zero-fills them
      on their next reference. */
  function Lost(memsize: nat, swapsize: nat, events: seq<Event>): set<nat>
    requires memsize > 0 && InRange(events, memsize)
  {
    if events == [] then {}
    else
      var n := |events| - 1;
      Lost(memsize, swapsize, events[..n]) +
        match Replay(memsize, swapsize, events[..n], false)
        case None => {}
        case Some(s) =>
          match CleanVictim(s, events[n].ref.vaddr, events[n].choice)
          case None => {}
          case Some(v) => if Writes(events[..n], v) > 0 then {v} else {}
  }

  /** A trace that always names a page by the same address, as page-aligned traces do. */
  ghost predicate SameAddress(events: seq<Event>) {
    forall i, j :: 0 <= i < j < |events| && PageOf(events[i].ref.vaddr) == PageOf(events[j].ref.vaddr) ==>
      events[i].ref.vaddr == events[j].ref.vaddr
  }

  predicate Aligned(events: seq<Event>) {
    forall i :: 0 <= i < |events| ==> events[i].ref.vaddr % PAGE_SIZE == 0
  }

  lemma AlignedIsSameAddress(events: seq<Event>)
    requires Aligned(events)
    ensures SameAddress(events)
  {
    forall i, j | 0 <= i < j < |events| && PageOf(events[i].ref.vaddr) == PageOf(events[j].ref.vaddr)
      ensures events[i].ref.vaddr == events[j].ref.vaddr
    {
      assert events[i].ref.vaddr == PageOf(events[i].ref.vaddr) * PAGE_SIZE + events[i].ref.vaddr % PAGE_SIZE;
    }
  }

  /** The address recorded in a page is one the trace used for that page. */
  ghost predicate TagKnown(s: Pager, events: seq<Event>, p: nat)
    requires Ok(s)
  {
    Content(s, p).Some? ==>
      exists i :: 0 <= i < |events| && PageOf(events[i].ref.vaddr) == p
        && events[i].ref.vaddr == Content(s, p).value.tag
  }

  lemma TagStays(s: Pager, t: Pager, events: seq<Event>, e: Event, q: nat)
    requires Ok(s) && Ok(t) && TagKnown(s, events, q)
    requires Content(t, q).Some? ==> Content(s, q).Some? && Content(t, q).value.tag == Content(s, q).value.tag
    ensures TagKnown(t, events + [e], q)
  {
    if Content(t, q).Some? {
      var i :| 0 <= i < |events| && PageOf(events[i].ref.vaddr) == q && events[i].ref.vaddr == Content(s, q).value.tag;
      assert (events + [e])[i] == events[i];
    }
  }

  lemma TagAfter(s: Pager, events: seq<Event>, e: Event, keep: bool, q: nat)
    requires Inv(s, events, keep) && e.choice.victim < |s.coremap| && RoomOnSwap(s)
    requires Access(s, e.ref, e.choice, keep).Some? && TagKnown(s, events, q)
    ensures TagKnown(Access(s, e.ref, e.choice, keep).value, events + [e], q)
  {
    var t := Access(s, e.ref, e.choice, keep).value;
    AccessContent(s, e.ref, e.choice, keep, q);
    if q == PageOf(e.ref.vaddr) && Content(s, q).None? {
      assert (events + [e])[|events|] == e;
    } else {
      TagStays(s, t, events, e, q);
    }
  }

  lemma ReplayRoom(s: Pager, events: seq<Event>, keep: bool, swapsize: nat)
    requires Inv(s, events, keep) && |s.used| == swapsize && |Pages(events)| <= swapsize
    ensures RoomOnSwap(s)
  {
    assert |s.entries| == |s.entries.Keys|;
    EnoughSwap(s);
  }

  /** The last line of a trace, and the state it found. */
  lemma LastAccess(memsize: nat, swapsize: nat, events: seq<Event>, keep: bool)
      returns (s: Pager, before: seq<Event>, e: Event)
    requires memsize > 0 && InRange(events, memsize) && |Pages(events)| <= swapsize && events != []
    ensures events == before + [e] && before == events[..|events| - 1] && |Pages(before)| <= swapsize
    ensures Replay(memsize, swapsize, before, keep) == Some(s) && Inv(s, before, keep) && RoomOnSwap(s)
    ensures e.choice.victim < |s.coremap|
    ensures Replay(memsize, swapsize, events, keep) == Access(s, e.ref, e.choice, keep)
    ensures Access(s, e.ref, e.choice, keep).Some?
  {
    before, e := events[..|events| - 1], events[|events| - 1];
    assert events == before + [e];
    PagesGrow(before, e);
    NeverAborts(memsize, swapsize, before, keep);
    s := Replay(memsize, swapsize, before, keep).value;
    LastAccessSucceeds(memsize, swapsize, before, keep, s, e);
  }

  lemma LastAccessSucceeds(memsize: nat, swapsize: nat, before: seq<Event>, keep: bool, s: Pager, e: Event)
    requires memsize > 0 && InRange(before, memsize) && |Pages(before)| <= swapsize
    requires Replay(memsize, swapsize, before, keep) == Some(s) && e.choice.victim < memsize
    ensures Inv(s, before, keep) && RoomOnSwap(s) && Access(s, e.ref, e.choice, keep).Some?
  {
    ReplayInv(memsize, swapsize, before, keep);
    ReplayRoom(s, before, keep, swapsize);
    AccessSucceeds(s, e.ref, e.choice, keep);
  }

  lemma {:induction false} TagsKnown(memsize: nat, swapsize: nat, events: seq<Event>, keep: bool, q: nat)
    requires memsize > 0 && InRange(events, memsize) && |Pages(events)| <= swapsize
    ensures Replay(memsize, swapsize, events, keep).Some?
    ensures TagKnown(Replay(memsize, swapsize, events, keep).value, events, q)
  {
    if events != [] {
      var s, before, e := LastAccess(memsize, swapsize, events, keep);
      TagsKnown(memsize, swapsize, before, keep, q);
      TagAfter(s, before, e, keep, q);
    }
  }

  lemma {:induction false} NoErrors(memsize: nat, swapsize: nat, events: seq<Event>, keep: bool)
    requires memsize > 0 && InRange(events, memsize) && |Pages(events)| <= swapsize && SameAddress(events)
    ensures Replay(memsize, swapsize, events, keep).Some?
    ensures Replay(memsize, swapsize, events, keep).value.errors == 0
  {
    hide Access, Inv, Ok, RoomOnSwap;
    if events != [] {
      var s, before, e := LastAccess(memsize, swapsize, events, keep);
      var p := PageOf(e.ref.vaddr);
      NoErrors(memsize, swapsize, before, keep);
      TagsKnown(memsize, swapsize, before, keep, p);
      AccessContent(s, e.ref, e.choice, keep, p);
      if Content(s, p).Some? { KnownTagIsRight(s, before, e); }
    }
  }

  lemma KnownTagIsRight(s: Pager, before: seq<Event>, e: Event)
    requires Ok(s) && SameAddress(before + [e])
    requires TagKnown(s, before, PageOf(e.ref.vaddr)) && Content(s, PageOf(e.ref.vaddr)).Some?
    ensures Content(s, PageOf(e.ref.vaddr)).value.tag == e.ref.vaddr
  {
    var p, events := PageOf(e.ref.vaddr), before + [e];
    var i :| 0 <= i < |before| && PageOf(before[i].ref.vaddr) == p && before[i].ref.vaddr == Content(s, p).value.tag;
    assert events[i] == before[i] && events[|before|] == e;
  }

  /** The address check never fails: on a trace of page-aligned addresses with a swap slot for every
      page, for any policy, no reference is told that its page has the wrong contents. */
  lemma AddressCheckPasses(memsize: nat, swapsize: nat, events: seq<Event>, keep: bool)
    requires memsize > 0 && InRange(events, memsize) && |Pages(events)| <= swapsize && Aligned(events)
    ensures Replay(memsize, swapsize, events, keep).Some?
    ensures Replay(memsize, swapsize, events, keep).value.errors == 0
  {
    AlignedIsSameAddress(events);
    NoErrors(memsize, swapsize, events, keep);
  }

  /** The address a page is remembered by: that of its first reference, counted anew whenever the page is
      evicted clean. */
  function Remembered(memsize: nat, swapsize: nat, events: seq<Event>, p: nat): Option<nat>
    requires memsize > 0 && InRange(events, memsize)
  {
    if events == [] then None
    else
      var n := |events| - 1;
      var before := Remembered(memsize, swapsize, events[..n], p);
      var vaddr := events[n].ref.vaddr;
      if PageOf(vaddr) == p then (if before == None then Some(vaddr) else before)
      else
        match Replay(memsize, swapsize, events[..n], false)
        case None => None
        case Some(s) => if CleanVictim(s, vaddr, events[n].choice) == Some(p) then None else before
  }

  /** How many lines of the trace name their page by another address than it is remembered by. */
  function Misnamed(memsize: nat, swapsize: nat, events: seq<Event>): nat
    requires memsize > 0 && InRange(events, memsize)
  {
    if events == [] then 0
    else
      var n := |events| - 1;
      var known := Remembered(memsize, swapsize, events[..n], PageOf(events[n].ref.vaddr));
      Misnamed(memsize, swapsize, events[..n]) +
        if known.Some? && known.value != events[n].ref.vaddr then 1 else 0
  }

  function Tag(s: Pager, p: nat): Option<nat>
    requires Ok(s)
  {
    match Content(s, p)
    case None => None
    case Some(page) => Some(page.tag)
  }

  lemma {:induction false} TagIsRemembered(memsize: nat, swapsize: nat, events: seq<Event>, p: nat)
    requires memsize > 0 && InRange(events, memsize) && |Pages(events)| <= swapsize
    ensures Replay(memsize, swapsize, events, false).Some?
    ensures Tag(Replay(memsize, swapsize, events, false).value, p) == Remembered(memsize, swapsize, events, p)
  {
    if events != [] {
      var s, before, e := LastAccess(memsize, swapsize, events, false);
      TagIsRemembered(memsize, swapsize, before, p);
      AccessContent(s, e.ref, e.choice, false, p);
    }
  }

  /** The address check, exactly: on every trace, for every policy, it reports as many errors as there
      are lines that name their page by another address than the pager remembers. */
  lemma {:induction false} AddressErrorsExactly(memsize: nat, swapsize: nat, events: seq<Event>)
    requires memsize > 0 && InRange(events, memsize) && |Pages(events)| <= swapsize
    ensures Replay(memsize, swapsize, events, false).Some?
    ensures Replay(memsize, swapsize, events, false).value.errors == Misnamed(memsize, swapsize, events)
  {
    if events != [] {
      var s, before, e := LastAccess(memsize, swapsize, events, false);
      AddressErrorsExactly(memsize, swapsize, before);
      TagIsRemembered(memsize, swapsize, before, PageOf(e.ref.vaddr));
      AccessContent(s, e.ref, e.choice, false, 0);
    }
  }

  lemma WritesAppend(events: seq<Event>, e: Event, p: nat)
    ensures Writes(events + [e], p) == Writes(events, p) + if e.ref.write && PageOf(e.ref.vaddr) == p then 1 else 0
  {
    assert (events + [e])[..|events|] == events;
  }

  /** The version counters, exactly: as coded, a page's version is its number of writes if and only
      if it was never evicted clean after a write; otherwise it falls short. */
  lemma {:induction false} VersionExactly(memsize: nat, swapsize: nat, events: seq<Event>, p: nat)
    requires memsize > 0 && InRange(events, memsize) && |Pages(events)| <= swapsize
    ensures Replay(memsize, swapsize, events, false).Some?
    ensures var v := Version(Replay(memsize, swapsize, events, false).value, p);
      if p in Lost(memsize, swapsize, events) then v < Writes(events, p) else v == Writes(events, p)
  {
    hide Access, Inv, Ok, RoomOnSwap;
    if events != [] {
      var s, before, e := LastAccess(memsize, swapsize, events, false);
      WritesAppend(before, e, p);
      VersionExactly(memsize, swapsize, before, p);
      AccessContent(s, e.ref, e.choice, false, p);
      VictimIsResident(s, e.ref.vaddr, e.choice);
    }
  }

  lemma VictimIsResident(s: Pager, vaddr: nat, c: Choice)
    requires Ok(s) && c.victim < |s.coremap|
    ensures CleanVictim(s, vaddr, c) != Some(PageOf(vaddr))
  {
  }

  /** Flat memory, as coded: without clean evictions every page's version is its number of writes. */
  lemma {:induction false} NoCleanEvictionsNoLoss(memsize: nat, swapsize: nat, events: seq<Event>)
    requires memsize > 0 && InRange(events, memsize)
    requires Replay(memsize, swapsize, events, false).Some?
    requires Replay(memsize, swapsize, events, false).value.cleanEvictions == 0
    ensures Lost(memsize, swapsize, events) == {}
  {
    if events != [] {
      var n := |events| - 1;
      var s := Replay(memsize, swapsize, events[..n], false).value;
      CleanEvictionsCount(s, events[n].ref, events[n].choice, false);
      NoCleanEvictionsNoLoss(memsize, swapsize, events[..n]);
    }
  }

  /** Clean evictions are counted, so the counter says whether a clean victim was ever taken. */
  lemma CleanEvictionsCount(s: Pager, r: Ref, c: Choice, keep: bool)
    requires Ok(s) && c.victim < |s.coremap| && Access(s, r, c, keep).Some?
    ensures Access(s, r, c, keep).value.cleanEvictions ==
      s.cleanEvictions + if CleanVictim(s, r.vaddr, c).Some? then 1 else 0
  {
    var m, f, t := Stages(s, r, c, keep);
    if !EntryOf(s, PageOf(r.vaddr)).valid {
      MakeRoomCleanCount(s, r.vaddr, c);
      LoadCounters(m, f, PageOf(r.vaddr), r.vaddr, keep);
    }
  }

  lemma MakeRoomCleanCount(s: Pager, vaddr: nat, c: Choice)
    requires Ok(s) && c.victim < |s.coremap| && !EntryOf(s, PageOf(vaddr)).valid
    ensures MakeRoom(s, c).0.cleanEvictions == s.cleanEvictions + if CleanVictim(s, vaddr, c).Some? then 1 else 0
  {
    if FreeFrame(s.coremap) == |s.coremap| {
      ClearRefsOk(s, c.cleared);
      var v := s.coremap[c.victim].value;
      assert ClearRefs(s, c.cleared).entries[v].dirty == s.entries[v].dirty;
    }
  }

  lemma FlatWithoutCleanEvictions(memsize: nat, swapsize: nat, events: seq<Event>, p: nat)
    requires memsize > 0 && InRange(events, memsize) && |Pages(events)| <= swapsize
    ensures Replay(memsize, swapsize, events, false).Some?
    ensures var s := Replay(memsize, swapsize, events, false).value;
      s.cleanEvictions == 0 ==> Version(s, p) == Writes(events, p)
  {
    VersionExactly(memsize, swapsize, events, p);
    if Replay(memsize, swapsize, events, false).value.cleanEvictions == 0 {
      NoCleanEvictionsNoLoss(memsize, swapsize, events);
    }
  }

  /** Flat memory, for the variant that leaves the on-swap flag set on page-in: on every trace and
      for every policy each page's version is its number of writes. */
  lemma {:induction false} FlatVariant(memsize: nat, swapsize: nat, events: seq<Event>, p: nat)
    requires memsize > 0 && InRange(events, memsize) && |Pages(events)| <= swapsize
    ensures Replay(memsize, swapsize, events, true).Some?
    ensures Version(Replay(memsize, swapsize, events, true).value, p) == Writes(events, p)
  {
    if events != [] {
      var s, before, e := LastAccess(memsize, swapsize, events, true);
      WritesAppend(before, e, p);
      FlatVariant(memsize, swapsize, before, p);
      AccessContent(s, e.ref, e.choice, true, p);
    }
  }

  // ---- The page-in defect on a concrete trace ----

  /** One frame, two pages: page 0 is written, paged out, read back and then evicted clean. */
  const LOSING: seq<Event> :=
    [Event(Ref(0, true), Choice(0, {})), Event(Ref(4096, false), Choice(0, {})),
     Event(Ref(0, false), Choice(0, {})), Event(Ref(4096, false), Choice(0, {}))]

  /** A miss with a single frame: the page takes it, dirty unless it came back from swap unwritten, and a
      dirty page that had it is on swap. */
  lemma OneFrameMiss(s: Pager, e: Event)
    requires Ok(s) && |s.coremap| == 1 && e.choice == Choice(0, {}) && !EntryOf(s, PageOf(e.ref.vaddr)).valid
    requires Access(s, e.ref, e.choice, false).Some?
    ensures var t := Access(s, e.ref, e.choice, false).value; var p := PageOf(e.ref.vaddr);
      && t.coremap == [Some(p)] && p in t.entries && t.entries[p].dirty == (!EntryOf(s, p).onswap || e.ref.write)
      && (s.coremap[0].Some? ==>
            var q := s.coremap[0].value;
            q in s.entries && q in t.entries && t.entries[q].onswap == (s.entries[q].onswap || s.entries[q].dirty))
  {
    hide RoomOnSwap;
    var m, f, t := Stages(s, e.ref, e.choice, false);
    assert ClearRefs(s, {}).entries == s.entries;
  }

  lemma OnlyResident(s: Pager, q: nat, p: nat)
    requires Ok(s) && s.coremap == [Some(q)] && p != q
    ensures !EntryOf(s, p).valid
  {
    if p in s.entries { assert EntryOk(s, p); }
  }

  lemma LosingInRange()
    ensures InRange(LOSING, 1) && |Pages(LOSING)| <= 2 && PageOf(0) == 0 && PageOf(4096) == 1
  {
    forall e | e in LOSING ensures PageOf(e.ref.vaddr) in {0, 1} { }
    assert Pages(LOSING) <= {0, 1};
    Subset(Pages(LOSING), {0, 1});
  }

  lemma PrefixPages(events: seq<Event>, k: nat)
    requires k <= |events|
    ensures |Pages(events[..k])| <= |Pages(events)|
  {
    Subset(Pages(events[..k]), Pages(events));
  }

  /** The states before and after line k of that trace. */
  lemma LosingStep(k: nat) returns (s: Pager, t: Pager)
    requires k < 4 && InRange(LOSING, 1) && |Pages(LOSING)| <= 2
    ensures Replay(1, 2, LOSING[..k], false) == Some(s) && Replay(1, 2, LOSING[..k + 1], false) == Some(t)
    ensures Ok(s) && |s.coremap| == 1 && Access(s, LOSING[k].ref, LOSING[k].choice, false) == Some(t)
  {
    PrefixPages(LOSING, k + 1);
    hide Replay, Access, Ok, Pages, Inv, RoomOnSwap;
    var before, e;
    s, before, e := LastAccess(1, 2, LOSING[..k + 1], false);
    assert before == LOSING[..k] && e == LOSING[k];
    t := Access(s, e.ref, e.choice, false).value;
  }

  lemma ReadBack() returns (s: Pager)
    requires InRange(LOSING, 1) && |Pages(LOSING)| <= 2
    ensures Replay(1, 2, LOSING[..3], false) == Some(s) && s.coremap == [Some(0)] && 0 in s.entries
    ensures !s.entries[0].dirty
  {
    hide Access, Ok;
    LosingInRange();
    var s0, s1 := LosingStep(0);
    assert s0 == Start(1, 2);
    OneFrameMiss(s0, LOSING[0]);
    var was, s2 := LosingStep(1);
    OnlyResident(s1, 0, 1);
    OneFrameMiss(s1, LOSING[1]);
    was, s := LosingStep(2);
    OnlyResident(s2, 1, 0);
    OneFrameMiss(s2, LOSING[2]);
  }

  lemma LosingWrites()
    ensures Writes(LOSING[..3], 0) == 1 && Writes(LOSING, 0) == 1
  {
    hide Writes;
    WritesAppend([], LOSING[0], 0);
    WritesAppend([LOSING[0]], LOSING[1], 0);
    WritesAppend([LOSING[0], LOSING[1]], LOSING[2], 0);
    WritesAppend(LOSING[..3], LOSING[3], 0);
    NoWrites();
    assert [] + [LOSING[0]] == [LOSING[0]] && [LOSING[0]] + [LOSING[1]] == [LOSING[0], LOSING[1]];
    assert [LOSING[0], LOSING[1]] + [LOSING[2]] == LOSING[..3] && LOSING[..3] + [LOSING[3]] == LOSING;
  }

  lemma NoWrites()
    ensures Writes([], 0) == 0
  {
  }

  lemma LosesPage0(s: Pager)
    requires InRange(LOSING, 1) && Replay(1, 2, LOSING[..3], false) == Some(s) && Writes(LOSING[..3], 0) == 1
    requires s.coremap == [Some(0)] && 0 in s.entries && !s.entries[0].dirty
    ensures 0 in Lost(1, 2, LOSING)
  {
    OnlyResident(s, 0, 1);
    assert LOSING[..|LOSING| - 1] == LOSING[..3];
    assert CleanVictim(s, 4096, Choice(0, {})) == Some(0);
  }

  /** There is a trace on which, with swap space to spare, the code as it stands forgets the only
      write to a page. */
  lemma CleanEvictionLosesWrite() returns (memsize: nat, swapsize: nat, e: seq<Event>)
    ensures memsize > 0 && InRange(e, memsize) && |Pages(e)| <= swapsize && Replay(memsize, swapsize, e, false).Some?
    ensures Version(Replay(memsize, swapsize, e, false).value, 0) == 0 && Writes(e, 0) == 1
  {
    hide Replay, Lost, Writes, Ok;
    memsize, swapsize, e := 1, 2, LOSING;
    LosingInRange();
    LosingWrites();
    var s := ReadBack();
    LosesPage0(s);
    VersionExactly(1, 2, LOSING, 0);
  }
}
