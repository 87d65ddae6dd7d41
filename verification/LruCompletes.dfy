/** When the LRU policy gets through a trace, and that its runs are runs of the pager. */
module LruCompletes {
  import opened Options
  import opened PagerModel
  import opened PagerContents
  import opened PagerRuns
  import opened LeastRecentlyUsed
  import opened Belady

  function RefPages(refs: seq<Ref>): set<nat> {
    set r | r in refs :: PageOf(r.vaddr)
  }

  /** The events are these references with some choice of the policy on each. */
  ghost predicate Events(events: seq<Event>, refs: seq<Ref>, memsize: nat) {
    InRange(events, memsize) && |events| == |refs| && forall i :: 0 <= i < |refs| ==> events[i].ref == refs[i]
  }

  lemma EventPages(events: seq<Event>, refs: seq<Ref>, memsize: nat)
    requires Events(events, refs, memsize)
    ensures Pages(events) == RefPages(refs)
  {
    forall p | p in RefPages(refs) ensures p in Pages(events) {
      var r :| r in refs && PageOf(r.vaddr) == p;
      var i :| 0 <= i < |refs| && refs[i] == r;
      assert events[i] in events;
    }
    forall p | p in Pages(events) ensures p in RefPages(refs) {
      var e :| e in events && PageOf(e.ref.vaddr) == p;
      var i :| 0 <= i < |events| && events[i] == e;
      assert refs[i] in refs;
    }
  }

  lemma NoRefs(memsize: nat, swapsize: nat)
    requires memsize > 0
    ensures Events([], [], memsize) && Replay(memsize, swapsize, [], false) == Some(Start(memsize, swapsize))
  {
  }

  /** A run under LRU is a run of the pager in which LRU makes the choices. */
  lemma {:induction false} LruIsReplay(memsize: nat, swapsize: nat, refs: seq<Ref>) returns (events: seq<Event>)
    requires memsize > 0 && LruRun(memsize, swapsize, refs).Some?
    ensures Events(events, refs, memsize)
    ensures Replay(memsize, swapsize, events, false) == Some(LruRun(memsize, swapsize, refs).value.pager)
  {
    hide LruAccess, Replay, Events;
    if refs == [] {
      events := [];
      NoRefs(memsize, swapsize);
    } else {
      var before, r := refs[..|refs| - 1], refs[|refs| - 1];
      var events0 := LruIsReplay(memsize, swapsize, before);
      var s := LruRun(memsize, swapsize, before).value;
      assert LruRun(memsize, swapsize, refs) == LruAccess(s, r);
      events := LruReplayStep(memsize, swapsize, events0, before, s, r);
      assert refs == before + [r];
    }
  }

  lemma LruReplayStep(memsize: nat, swapsize: nat, events: seq<Event>, refs: seq<Ref>, s: LruPager, r: Ref)
      returns (after: seq<Event>)
    requires memsize > 0 && Events(events, refs, memsize) && Replay(memsize, swapsize, events, false) == Some(s.pager)
    requires |s.pager.coremap| == memsize && Ok(s.pager) && Lists(s.order, s.pager) && LruAccess(s, r).Some?
    ensures Events(after, refs + [r], memsize)
    ensures Replay(memsize, swapsize, after, false) == Some(LruAccess(s, r).value.pager)
  {
    var rest, victim := LruStages(s, r);
    after := events + [Event(r, Choice(victim, {}))];
    ReplayMore(memsize, swapsize, events, refs, s.pager, Event(r, Choice(victim, {})), LruAccess(s, r).value.pager);
  }

  lemma ReplayMore(memsize: nat, swapsize: nat, events: seq<Event>, refs: seq<Ref>, s: Pager, e: Event, t: Pager)
    requires memsize > 0 && Events(events, refs, memsize) && Replay(memsize, swapsize, events, false) == Some(s)
    requires e.choice.victim < |s.coremap| == memsize && Ok(s) && Access(s, e.ref, e.choice, false) == Some(t)
    ensures Events(events + [e], refs + [e.ref], memsize) && Replay(memsize, swapsize, events + [e], false) == Some(t)
  {
    var after := events + [e];
    assert after[..|events|] == events && InRange(after, memsize);
  }

  /** The swap code has no reason to fail. */
  lemma SwapReady(memsize: nat, swapsize: nat, refs: seq<Ref>)
    requires memsize > 0 && LruRun(memsize, swapsize, refs).Some? && |RefPages(refs)| <= swapsize
    ensures var s := LruRun(memsize, swapsize, refs).value.pager; RoomOnSwap(s) && OnSwapHasSlot(s)
  {
    var events := LruIsReplay(memsize, swapsize, refs);
    EventPages(events, refs, memsize);
    ReplayInv(memsize, swapsize, events, false);
    var s := LruRun(memsize, swapsize, refs).value.pager;
    assert |s.entries| == |s.entries.Keys|;
    EnoughSwap(s);
  }

  lemma {:induction false} FirstTwoRecency(refs: seq<Ref>)
    requires |refs| >= 2 && PageOf(refs[0].vaddr) != PageOf(refs[1].vaddr)
    ensures |Recency(refs)| >= 2
  {
    var n := |refs| - 1;
    if |refs| == 2 {
      assert refs[..1][..0] == [] && Recency(refs[..1]) == [PageOf(refs[0].vaddr)];
    } else {
      FirstTwoRecency(refs[..n]);
      RecencyDistinct(refs[..n]);
      WithoutDistinct(Recency(refs[..n]), PageOf(refs[n].vaddr));
    }
  }

  predicate SameFirstTwo(refs: seq<Ref>) {
    |refs| >= 2 && PageOf(refs[0].vaddr) == PageOf(refs[1].vaddr)
  }

  /** The only listed frame is referenced again only by repeating the first reference. */
  lemma OnlyFrame(s: LruPager, before: seq<Ref>, r: Ref)
    requires Stack(s, before) && |s.pager.coremap| >= 2 && |s.order| == 1 && EntryOf(s.pager, PageOf(r.vaddr)).valid
    ensures SameFirstTwo(before + [r])
  {
    var refs := before + [r];
    ResidentPages(s, PageOf(r.vaddr));
    if |before| >= 2 {
      if !SameFirstTwo(before) { FirstTwoRecency(before); }
      assert refs[0] == before[0] && refs[1] == before[1];
    } else {
      assert Recency(before) != [];
      assert before[..0] == [] && Recency(before) == [PageOf(before[0].vaddr)];
      assert refs[0] == before[0] && refs[1] == r;
    }
  }

  /** `lru_ref` after an access that completed. */
  lemma RefCompletes(s: LruPager, before: seq<Ref>, r: Ref, victim: nat, rest: seq<nat>)
    requires Stack(s, before) && |s.pager.coremap| >= 2 && victim < |s.pager.coremap|
    requires if MustEvict(s.pager, r.vaddr) then |s.order| >= 2 && s.order == [victim] + rest else rest == s.order
    requires Access(s.pager, r, Choice(victim, {}), false).Some?
    requires !SameFirstTwo(before + [r])
    ensures LruRef(rest, EntryOf(Access(s.pager, r, Choice(victim, {}), false).value, PageOf(r.vaddr)).frame).Some?
  {
    AccessFrames(s.pager, r, Choice(victim, {}), false);
    var f := EntryOf(Access(s.pager, r, Choice(victim, {}), false).value, PageOf(r.vaddr)).frame;
    if MustEvict(s.pager, r.vaddr) {
      assert s.order[0] == victim && s.order[1] == rest[0] && s.order[0] != s.order[1];
    } else if EntryOf(s.pager, PageOf(r.vaddr)).valid {
      if |s.order| == 1 { OnlyFrame(s, before, r); }
    } else {
      assert f !in s.order;
      assert rest == [f] ==> f in rest;
    }
  }

  lemma EvictionCompletes(s: LruPager, before: seq<Ref>, r: Ref)
    requires Stack(s, before) && |s.pager.coremap| >= 2 && MustEvict(s.pager, r.vaddr)
    requires RoomOnSwap(s.pager) && OnSwapHasSlot(s.pager) && !SameFirstTwo(before + [r])
    ensures LruAccess(s, r).Some?
  {
    hide Access;
    InUse(s);
    assert s.order[0] in s.order;
    AccessSucceeds(s.pager, r, Choice(s.order[0], {}), false);
    RefCompletes(s, before, r, s.order[0], s.order[1..]);
  }

  lemma OtherwiseCompletes(s: LruPager, before: seq<Ref>, r: Ref)
    requires Stack(s, before) && |s.pager.coremap| >= 2 && !MustEvict(s.pager, r.vaddr)
    requires RoomOnSwap(s.pager) && OnSwapHasSlot(s.pager) && !SameFirstTwo(before + [r])
    ensures LruAccess(s, r).Some?
  {
    AccessSucceeds(s.pager, r, Choice(0, {}), false);
    RefCompletes(s, before, r, 0, s.order);
  }

  lemma LastCompletes(memsize: nat, swapsize: nat, before: seq<Ref>, r: Ref, s: LruPager)
    requires memsize >= 2 && |RefPages(before)| <= swapsize && !SameFirstTwo(before + [r])
    requires LruRun(memsize, swapsize, before) == Some(s)
    ensures LruAccess(s, r).Some?
  {
    SwapReady(memsize, swapsize, before);
    StackTheorem(memsize, swapsize, before);
    if MustEvict(s.pager, r.vaddr) { EvictionCompletes(s, before, r); } else { OtherwiseCompletes(s, before, r); }
  }

  lemma FewerPages(before: seq<Ref>, r: Ref)
    ensures |RefPages(before)| <= |RefPages(before + [r])|
  {
    assert forall x :: x in before ==> x in before + [r];
    Subset(RefPages(before), RefPages(before + [r]));
  }

  lemma {:induction false} Completes(memsize: nat, swapsize: nat, refs: seq<Ref>)
    requires memsize >= 2 && |RefPages(refs)| <= swapsize && !SameFirstTwo(refs)
    ensures LruRun(memsize, swapsize, refs).Some?
  {
    if refs != [] {
      var before, r := refs[..|refs| - 1], refs[|refs| - 1];
      assert refs == before + [r];
      FewerPages(before, r);
      Completes(memsize, swapsize, before);
      LastCompletes(memsize, swapsize, before, r, LruRun(memsize, swapsize, before).value);
    }
  }

  lemma {:induction false} CrashStays(memsize: nat, swapsize: nat, refs: seq<Ref>, n: nat)
    requires memsize > 0 && n <= |refs| && LruRun(memsize, swapsize, refs[..n]).None?
    ensures LruRun(memsize, swapsize, refs).None?
    decreases |refs|
  {
    if n < |refs| {
      assert refs[..|refs| - 1][..n] == refs[..n];
      CrashStays(memsize, swapsize, refs[..|refs| - 1], n);
    } else {
      assert refs[..n] == refs;
    }
  }

  lemma RepeatCrashes(memsize: nat, swapsize: nat, refs: seq<Ref>)
    requires memsize >= 2 && |refs| == 2 && SameFirstTwo(refs)
    ensures LruRun(memsize, swapsize, refs).None?
  {
    var before, r := refs[..1], refs[1];
    if LruRun(memsize, swapsize, before).Some? {
      var s := LruRun(memsize, swapsize, before).value;
      StackTheorem(memsize, swapsize, before);
      assert before[..0] == [] && Recency(before) == [PageOf(refs[0].vaddr)];
      ResidentsAreLatest(memsize, swapsize, before, PageOf(r.vaddr));
      var p := PageOf(r.vaddr);
      assert EntryOk(s.pager, p);
      assert s.pager.entries[p].frame in s.order && |s.order| == 1;
      if Access(s.pager, r, Choice(0, {}), false).Some? { AccessFrames(s.pager, r, Choice(0, {}), false); }
    }
  }

  /** Exactly when LRU gets through a trace: with two or more frames and a swap slot for every page,
      the null pointer of `in_list` is dereferenced if and only if the first two references are to
      the same page. */
  lemma CompletesExactly(memsize: nat, swapsize: nat, refs: seq<Ref>)
    requires memsize >= 2 && |RefPages(refs)| <= swapsize
    ensures LruRun(memsize, swapsize, refs).Some? <==> !SameFirstTwo(refs)
  {
    if SameFirstTwo(refs) {
      RepeatCrashes(memsize, swapsize, refs[..2]);
      CrashStays(memsize, swapsize, refs, 2);
    } else {
      Completes(memsize, swapsize, refs);
    }
  }
}
