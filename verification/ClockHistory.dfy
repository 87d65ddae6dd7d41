/** The reference bits, and what the clock's choices come to over whole traces: a bit is set exactly if
    its frame has been referenced since the hand last passed it. */
module ClockHistory {
  import opened Options
  import opened PagerModel
  import opened LruCompletes
  import opened LeastRecentlyUsed
  import opened Policies
  import opened PolicyRuns

  // ---- One reference ----

  lemma BitsCleared(s: Pager, frames: set<nat>)
    requires Ok(s)
    ensures forall g :: 0 <= g < |s.coremap| ==> RefBits(ClearRefs(s, frames))[g] == (RefBits(s)[g] && g !in frames)
  {
  }

  lemma BitsEvicted(s: Pager, f: nat)
    requires Ok(s) && f < |s.coremap| && s.coremap[f].Some? && EntryOk(s, s.coremap[f].value)
    ensures |Evict(s, f).coremap| == |s.coremap|
    ensures forall g :: 0 <= g < |s.coremap| && g != f ==> RefBits(Evict(s, f))[g] == RefBits(s)[g]
  {
  }

  lemma BitsMoved(s: Pager, c: Choice)
    requires Ok(s) && c.victim < |s.coremap|
    ensures var (m, f) := MakeRoom(s, c);
      && |m.coremap| == |s.coremap|
      && forall g :: 0 <= g < |s.coremap| && g != f ==>
           RefBits(m)[g] == (RefBits(s)[g] && !(FreeFrame(s.coremap) == |s.coremap| && g in c.cleared))
  {
    if FreeFrame(s.coremap) == |s.coremap| {
      ClearRefsOk(s, c.cleared);
      BitsCleared(s, c.cleared);
      assert EntryOk(ClearRefs(s, c.cleared), s.coremap[c.victim].value);
      BitsEvicted(ClearRefs(s, c.cleared), c.victim);
    }
  }

  lemma BitsLoaded(s: Pager, f: nat, p: nat, vaddr: nat, keep: bool)
    requires Ok(s) && f < |s.coremap| && s.coremap[f].None? && (p in s.entries ==> EntryOk(s, p))
    requires Load(s, f, p, vaddr, keep).Some?
    ensures var t := Load(s, f, p, vaddr, keep).value;
      && |t.coremap| == |s.coremap| && EntryOf(t, p).frame == f
      && forall g :: 0 <= g < |s.coremap| && g != f && s.coremap[g] != Some(p) ==> RefBits(t)[g] == RefBits(s)[g]
  {
  }

  lemma BitsTouched(s: Pager, r: Ref)
    requires Ok(s) && PageOf(r.vaddr) in s.entries && s.entries[PageOf(r.vaddr)].valid
    requires s.entries[PageOf(r.vaddr)].frame < |s.phys|
    ensures var t := Touch(s, r); var f := EntryOf(t, PageOf(r.vaddr)).frame;
      && f == s.entries[PageOf(r.vaddr)].frame && f < |s.coremap| == |t.coremap|
      && t.coremap[f] == Some(PageOf(r.vaddr)) && RefBits(t)[f]
      && forall g :: 0 <= g < |s.coremap| && g != f ==> RefBits(t)[g] == RefBits(s)[g]
  {
    assert EntryOk(s, PageOf(r.vaddr));
  }

  /** A reference sets the bit of the frame its page is in; the bits of the other frames stay as they
      were, but for those that the policy clears on its way to a victim. */
  lemma RefBitsAfter(s: Pager, r: Ref, c: Choice, keep: bool)
    requires Ok(s) && c.victim < |s.coremap| && Access(s, r, c, keep).Some?
    ensures var t := Access(s, r, c, keep).value; var f := EntryOf(t, PageOf(r.vaddr)).frame;
      && f < |s.coremap| == |t.coremap| && t.coremap[f] == Some(PageOf(r.vaddr)) && RefBits(t)[f]
      && forall g :: 0 <= g < |s.coremap| && g != f ==>
           RefBits(t)[g] == (RefBits(s)[g] && !(MustEvict(s, r.vaddr) && g in c.cleared))
  {
    hide Access, Load, MakeRoom, Touch, Ok;
    var p := PageOf(r.vaddr);
    var m, f, t := Stages(s, r, c, keep);
    BitsTouched(t, r);
    if EntryOf(s, p).valid {
      assert RefBits(t) == RefBits(s);
    } else {
      BitsMoved(s, c);
      BitsLoaded(m, f, p, r.vaddr, keep);
      assert forall g :: 0 <= g < |m.coremap| ==> m.coremap[g] != Some(p) by { NotResident(m, p); }
    }
  }

  lemma NotResident(s: Pager, p: nat)
    requires Ok(s) && !EntryOf(s, p).valid
    ensures forall g :: 0 <= g < |s.coremap| ==> s.coremap[g] != Some(p)
  {
  }

  // ---- Clock runs ----

  /** The pager after the first i lines of a clock run, and the hand. */
  function PagerAt(memsize: nat, swapsize: nat, refs: seq<Ref>, i: nat): (s: Pager)
    requires memsize > 0 && i <= |refs| && PolicyRun(Clock(0), memsize, swapsize, refs[..i]).Some?
    ensures Ok(s) && |s.coremap| == memsize
  {
    PolicyRun(Clock(0), memsize, swapsize, refs[..i]).value.1
  }

  function HandAt(memsize: nat, swapsize: nat, refs: seq<Ref>, i: nat): (h: nat)
    requires memsize > 0 && i <= |refs| && PolicyRun(Clock(0), memsize, swapsize, refs[..i]).Some?
    ensures h < memsize
  {
    match PolicyRun(Clock(0), memsize, swapsize, refs[..i]).value.0
    case Clock(hand) => hand
    case _ => 0
  }

  /** The run gets through every line. */
  ghost predicate ClockRun(memsize: nat, swapsize: nat, refs: seq<Ref>) {
    memsize > 0 && forall i :: 0 <= i <= |refs| ==> PolicyRun(Clock(0), memsize, swapsize, refs[..i]).Some?
  }

  /** Line i is to the page that is in frame f afterwards. */
  predicate ReferencedAt(memsize: nat, swapsize: nat, refs: seq<Ref>, i: nat, f: nat)
    requires ClockRun(memsize, swapsize, refs) && i < |refs| && f < memsize
  {
    PagerAt(memsize, swapsize, refs, i + 1).coremap[f] == Some(PageOf(refs[i].vaddr))
  }

  /** The hand goes from one place to the next over frame f: f lies between them, or it comes back to where
      it was, over a bit that was set. */
  predicate Between(bits: seq<bool>, from: nat, to: nat, f: nat)
    requires from < |bits| && to < |bits| && f < |bits|
  {
    Distance(from, f, |bits|) < Distance(from, to, |bits|) || (to == from && bits[from])
  }

  /** At line i the hand passes frame f on its way to a victim. */
  predicate PassedAt(memsize: nat, swapsize: nat, refs: seq<Ref>, i: nat, f: nat)
    requires ClockRun(memsize, swapsize, refs) && i < |refs| && f < memsize
  {
    var s := PagerAt(memsize, swapsize, refs, i);
    && MustEvict(s, refs[i].vaddr)
    && Between(RefBits(s), HandAt(memsize, swapsize, refs, i), HandAt(memsize, swapsize, refs, i + 1), f)
  }

  /** Frame f has been referenced in the first n lines, and the hand has not passed it since. */
  ghost predicate UsedSince(memsize: nat, swapsize: nat, refs: seq<Ref>, n: nat, f: nat)
    requires ClockRun(memsize, swapsize, refs) && n <= |refs| && f < memsize
  {
    exists i :: 0 <= i < n && ReferencedAt(memsize, swapsize, refs, i, f)
      && forall j :: i < j < n ==> !PassedAt(memsize, swapsize, refs, j, f)
  }

  lemma UsedStep(memsize: nat, swapsize: nat, refs: seq<Ref>, n: nat, f: nat)
    requires ClockRun(memsize, swapsize, refs) && n < |refs| && f < memsize
    ensures UsedSince(memsize, swapsize, refs, n + 1, f) <==>
      ReferencedAt(memsize, swapsize, refs, n, f)
      || (UsedSince(memsize, swapsize, refs, n, f) && !PassedAt(memsize, swapsize, refs, n, f))
  {
    hide ReferencedAt, PassedAt;
    if UsedSince(memsize, swapsize, refs, n + 1, f) {
      var i :| 0 <= i < n + 1 && ReferencedAt(memsize, swapsize, refs, i, f)
        && forall j :: i < j < n + 1 ==> !PassedAt(memsize, swapsize, refs, j, f);
    }
    if UsedSince(memsize, swapsize, refs, n, f) && !PassedAt(memsize, swapsize, refs, n, f) {
      var i :| 0 <= i < n && ReferencedAt(memsize, swapsize, refs, i, f)
        && forall j :: i < j < n ==> !PassedAt(memsize, swapsize, refs, j, f);
      assert forall j :: i < j < n + 1 ==> !PassedAt(memsize, swapsize, refs, j, f);
    }
  }

  /** What the clock decides, told from the bits. */
  lemma ClockDecides(s: Pager, hand: nat, r: Ref)
    requires Ok(s) && hand < |s.coremap| && MustEvict(s, r.vaddr)
    ensures Chosen(Clock(hand), s, r).Some?
    ensures var bits := RefBits(s); var (c, after) := Chosen(Clock(hand), s, r).value;
      && after == Clock(c.victim) && c.victim < |bits|
      && (forall f :: 0 <= f < |bits| ==> (f in c.cleared <==> Between(bits, hand, c.victim, f)))
      && (forall f :: 0 <= f < |bits| && Between(bits, hand, c.victim, f) ==> bits[f])
      && (bits[c.victim] ==> c.victim == hand)
  {
    var bits := RefBits(s);
    hide Ok, RefBits;
    ClockIsExact(bits, hand);
    var k := Skipped(bits, hand);
    if k < |bits| { PlaceDistance(hand, k, |bits|); }
  }

  /** One line of the clock: the hand, and the bits. */
  lemma ClockLine(s: Pager, hand: nat, r: Ref)
    requires Ok(s) && hand < |s.coremap| && PolicyAccess(Clock(hand), s, r).Some?
    ensures var (policy, t) := PolicyAccess(Clock(hand), s, r).value; var bits := RefBits(s);
      && policy.Clock? && policy.hand < |bits| == |t.coremap|
      && (!MustEvict(s, r.vaddr) ==> policy.hand == hand)
      && (MustEvict(s, r.vaddr) ==>
            && t.coremap[policy.hand] == Some(PageOf(r.vaddr))
            && (forall f :: 0 <= f < |bits| && Between(bits, hand, policy.hand, f) ==> bits[f])
            && (bits[policy.hand] ==> policy.hand == hand))
      && forall f :: 0 <= f < |bits| ==>
           RefBits(t)[f] == (t.coremap[f] == Some(PageOf(r.vaddr))
             || (bits[f] && !(MustEvict(s, r.vaddr) && Between(bits, hand, policy.hand, f))))
  {
    hide Between, RefBits, Access, Decide;
    var (c, after) := Chosen(Clock(hand), s, r).value;
    if MustEvict(s, r.vaddr) { ClockDecides(s, hand, r); }
    RefBitsAfter(s, r, c, false);
    var t := PolicyAccess(Clock(hand), s, r).value.1;
    OneFrame(t, PageOf(r.vaddr));
    if MustEvict(s, r.vaddr) { VictimLoaded(s, r, c); }
  }

  /** A page is in one frame at most. */
  lemma OneFrame(s: Pager, p: nat)
    requires Ok(s)
    ensures forall f :: 0 <= f < |s.coremap| && s.coremap[f] == Some(p) ==> f == EntryOf(s, p).frame
  {
  }

  /** The victim's frame takes the new page. */
  lemma VictimLoaded(s: Pager, r: Ref, c: Choice)
    requires Ok(s) && c.victim < |s.coremap| && MustEvict(s, r.vaddr) && Access(s, r, c, false).Some?
    ensures EntryOf(Access(s, r, c, false).value, PageOf(r.vaddr)).frame == c.victim
  {
    hide Ok, Evict;
    var m, f, t := Stages(s, r, c, false);
  }

  lemma LineAt(memsize: nat, swapsize: nat, refs: seq<Ref>, i: nat)
    requires ClockRun(memsize, swapsize, refs) && i < |refs|
    ensures var s, hand := PagerAt(memsize, swapsize, refs, i), HandAt(memsize, swapsize, refs, i);
      PolicyRun(Clock(0), memsize, swapsize, refs[..i]) == Some((Clock(hand), s))
      && PolicyAccess(Clock(hand), s, refs[i])
        == Some((Clock(HandAt(memsize, swapsize, refs, i + 1)), PagerAt(memsize, swapsize, refs, i + 1)))
  {
    hide PolicyAccess;
    RunStep(Clock(0), memsize, swapsize, refs, i);
    StaysClock(memsize, swapsize, refs[..i]);
    StaysClock(memsize, swapsize, refs[..i + 1]);
  }

  lemma {:induction false} StaysClock(memsize: nat, swapsize: nat, refs: seq<Ref>)
    requires memsize > 0 && PolicyRun(Clock(0), memsize, swapsize, refs).Some?
    ensures PolicyRun(Clock(0), memsize, swapsize, refs).value.0.Clock?
  {
    if refs != [] { StaysClock(memsize, swapsize, refs[..|refs| - 1]); }
  }

  /** On every trace the bit of a frame is set exactly if a line has referenced the frame and the hand has
      not passed it since. */
  lemma {:induction false} BitsTellHistory(memsize: nat, swapsize: nat, refs: seq<Ref>, n: nat, f: nat)
    requires ClockRun(memsize, swapsize, refs) && n <= |refs| && f < memsize
    ensures RefBits(PagerAt(memsize, swapsize, refs, n))[f] <==> UsedSince(memsize, swapsize, refs, n, f)
  {
    hide PolicyRun, PolicyAccess, RefBits, FirstClear, UsedSince, Ok, ClockRun;
    if n == 0 {
      NoneUsed(memsize, swapsize, refs, f);
    } else {
      BitsTellHistory(memsize, swapsize, refs, n - 1, f);
      LineAt(memsize, swapsize, refs, n - 1);
      ClockLine(PagerAt(memsize, swapsize, refs, n - 1), HandAt(memsize, swapsize, refs, n - 1), refs[n - 1]);
      UsedStep(memsize, swapsize, refs, n - 1, f);
    }
  }

  lemma NoneUsed(memsize: nat, swapsize: nat, refs: seq<Ref>, f: nat)
    requires ClockRun(memsize, swapsize, refs) && f < memsize
    ensures !RefBits(PagerAt(memsize, swapsize, refs, 0))[f] && !UsedSince(memsize, swapsize, refs, 0, f)
  {
  }

  /** The clock's second chance: at a line that evicts, every frame before the victim on the hand's way has
      been referenced since the hand last passed it; the victim has not, unless all frames have, and then
      it is the one the hand stood at.  The hand stays there, and the new page is in that frame. */
  lemma SecondChance(memsize: nat, swapsize: nat, refs: seq<Ref>, i: nat)
    requires ClockRun(memsize, swapsize, refs) && i < |refs|
    requires MustEvict(PagerAt(memsize, swapsize, refs, i), refs[i].vaddr)
    ensures var hand, victim := HandAt(memsize, swapsize, refs, i), HandAt(memsize, swapsize, refs, i + 1);
      && PagerAt(memsize, swapsize, refs, i + 1).coremap[victim] == Some(PageOf(refs[i].vaddr))
      && (forall f :: 0 <= f < memsize && Distance(hand, f, memsize) < Distance(hand, victim, memsize) ==>
            UsedSince(memsize, swapsize, refs, i, f))
      && (UsedSince(memsize, swapsize, refs, i, victim) ==>
            victim == hand && forall f :: 0 <= f < memsize ==> UsedSince(memsize, swapsize, refs, i, f))
  {
    hide PolicyRun, PolicyAccess, RefBits, UsedSince, Ok, ClockRun, MustEvict;
    LineAt(memsize, swapsize, refs, i);
    ClockLine(PagerAt(memsize, swapsize, refs, i), HandAt(memsize, swapsize, refs, i), refs[i]);
    forall f | 0 <= f < memsize
      ensures RefBits(PagerAt(memsize, swapsize, refs, i))[f] <==> UsedSince(memsize, swapsize, refs, i, f)
    {
      BitsTellHistory(memsize, swapsize, refs, i, f);
    }
  }

  /** A line that does not evict leaves the hand where it is. */
  lemma HandRests(memsize: nat, swapsize: nat, refs: seq<Ref>, i: nat)
    requires ClockRun(memsize, swapsize, refs) && i < |refs|
    requires !MustEvict(PagerAt(memsize, swapsize, refs, i), refs[i].vaddr)
    ensures HandAt(memsize, swapsize, refs, i + 1) == HandAt(memsize, swapsize, refs, i)
  {
    hide PolicyRun, PolicyAccess, RefBits, Ok, ClockRun, MustEvict;
    LineAt(memsize, swapsize, refs, i);
    ClockLine(PagerAt(memsize, swapsize, refs, i), HandAt(memsize, swapsize, refs, i), refs[i]);
  }

  /** With a slot for every page the clock gets through every line, so all of this holds of it. */
  lemma ClockRuns(memsize: nat, swapsize: nat, refs: seq<Ref>)
    requires memsize > 0 && |RefPages(refs)| <= swapsize
    ensures ClockRun(memsize, swapsize, refs)
  {
    FifoAndClockComplete(Clock(0), memsize, swapsize, refs);
    forall i | 0 <= i <= |refs| ensures PolicyRun(Clock(0), memsize, swapsize, refs[..i]).Some? {
      PrefixRuns(Clock(0), memsize, swapsize, refs, i);
    }
  }
}
