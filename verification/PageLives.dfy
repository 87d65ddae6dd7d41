/** The life of a page over a whole trace, told from the lines of the trace and the evictions alone, and the
    flags and eviction counters that go with it. */
module PageLives {
  import opened Options
  import opened PagerModel
  import opened PagerContents
  import opened PagerRuns
  import opened LeastRecentlyUsed

  /** Nothing kept of it; kept in the swap file; in memory as it was read back; in memory and zero-filled or
      written since it was loaded. */
  datatype Life = Absent | Stored | Clean | Changed

  /** One line of the trace: a reference to the page, or its eviction by another one, or neither.  A clean
      page that is evicted is forgotten, although it came from swap. */
  function LifeStep(life: Life, mine: bool, write: bool, evicted: bool): Life {
    if mine then
      match life
      case Absent => Changed
      case Stored => if write then Changed else Clean
      case Clean => if write then Changed else Clean
      case Changed => Changed
    else if evicted then
      match life
      case Changed => Stored
      case Clean => Absent
      case _ => life
    else life
  }

  /** The page that a reference evicts. */
  function Victim(s: Pager, vaddr: nat, c: Choice): Option<nat>
    requires c.victim < |s.coremap|
  {
    if MustEvict(s, vaddr) then s.coremap[c.victim] else None
  }

  function LifeAfter(memsize: nat, swapsize: nat, events: seq<Event>, p: nat): Life
    requires memsize > 0 && InRange(events, memsize)
  {
    if events == [] then Absent
    else
      var n := |events| - 1;
      match Replay(memsize, swapsize, events[..n], false)
      case None => Absent
      case Some(s) =>
        LifeStep(LifeAfter(memsize, swapsize, events[..n], p), PageOf(events[n].ref.vaddr) == p, events[n].ref.write,
          Victim(s, events[n].ref.vaddr, events[n].choice) == Some(p))
  }

  /** How many pages have been evicted at this point of their life. */
  function Evictions(memsize: nat, swapsize: nat, events: seq<Event>, life: Life): nat
    requires memsize > 0 && InRange(events, memsize)
  {
    if events == [] then 0
    else
      var n := |events| - 1;
      Evictions(memsize, swapsize, events[..n], life) +
        match Replay(memsize, swapsize, events[..n], false)
        case None => 0
        case Some(s) =>
          match Victim(s, events[n].ref.vaddr, events[n].choice)
          case None => 0
          case Some(v) => if LifeAfter(memsize, swapsize, events[..n], v) == life then 1 else 0
  }

  // ---- One reference ----

  /** What the flags of an entry say. */
  function LifeOf(e: Entry): Life {
    if e.valid then (if e.dirty then Changed else Clean) else if e.onswap then Stored else Absent
  }

  lemma LifeCleared(s: Pager, frames: set<nat>, q: nat)
    ensures LifeOf(EntryOf(ClearRefs(s, frames), q)) == LifeOf(EntryOf(s, q))
  {
  }

  lemma LifeEvicted(s: Pager, f: nat, q: nat)
    requires Ok(s) && ResidentOffSwap(s) && f < |s.coremap| && s.coremap[f].Some? && EntryOk(s, s.coremap[f].value)
    ensures LifeOf(EntryOf(Evict(s, f), q)) == LifeStep(LifeOf(EntryOf(s, q)), false, false, s.coremap[f] == Some(q))
    ensures var life := LifeOf(EntryOf(s, s.coremap[f].value)); var t := Evict(s, f);
      && (life == Changed || life == Clean)
      && t.dirtyEvictions == s.dirtyEvictions + (if life == Changed then 1 else 0)
      && t.cleanEvictions == s.cleanEvictions + (if life == Clean then 1 else 0)
  {
  }

  lemma LifeMoved(s: Pager, vaddr: nat, c: Choice, q: nat)
    requires Ok(s) && ResidentOffSwap(s) && c.victim < |s.coremap| && !EntryOf(s, PageOf(vaddr)).valid
    ensures var m := MakeRoom(s, c).0; var v := Victim(s, vaddr, c);
      && LifeOf(EntryOf(m, q)) == LifeStep(LifeOf(EntryOf(s, q)), false, false, v == Some(q))
      && (v.Some? ==> LifeOf(EntryOf(s, v.value)) == Changed || LifeOf(EntryOf(s, v.value)) == Clean)
      && m.dirtyEvictions == s.dirtyEvictions + (if v.Some? && LifeOf(EntryOf(s, v.value)) == Changed then 1 else 0)
      && m.cleanEvictions == s.cleanEvictions + (if v.Some? && LifeOf(EntryOf(s, v.value)) == Clean then 1 else 0)
  {
    if FreeFrame(s.coremap) == |s.coremap| {
      var t := ClearRefs(s, c.cleared);
      ClearRefsOk(s, c.cleared);
      assert ResidentOffSwap(t);
      assert EntryOk(t, s.coremap[c.victim].value);
      LifeCleared(s, c.cleared, q);
      LifeCleared(s, c.cleared, s.coremap[c.victim].value);
      LifeEvicted(t, c.victim, q);
    }
  }

  lemma LifeLoaded(s: Pager, f: nat, r: Ref, q: nat)
    requires Ok(s) && f < |s.coremap| && (PageOf(r.vaddr) in s.entries ==> EntryOk(s, PageOf(r.vaddr)))
    requires !EntryOf(s, PageOf(r.vaddr)).valid && Load(s, f, PageOf(r.vaddr), r.vaddr, false).Some?
    ensures var t := Load(s, f, PageOf(r.vaddr), r.vaddr, false).value;
      && LifeOf(EntryOf(t, q)) == LifeStep(LifeOf(EntryOf(s, q)), PageOf(r.vaddr) == q, false, false)
      && t.dirtyEvictions == s.dirtyEvictions && t.cleanEvictions == s.cleanEvictions
  {
  }

  lemma LifeTouched(s: Pager, r: Ref, q: nat)
    requires PageOf(r.vaddr) in s.entries && s.entries[PageOf(r.vaddr)].valid
    requires s.entries[PageOf(r.vaddr)].frame < |s.phys|
    ensures var t := Touch(s, r);
      && LifeOf(EntryOf(t, q)) == LifeStep(LifeOf(EntryOf(s, q)), PageOf(r.vaddr) == q, r.write, false)
      && t.dirtyEvictions == s.dirtyEvictions && t.cleanEvictions == s.cleanEvictions
  {
  }

  lemma LifeAccessed(s: Pager, r: Ref, c: Choice, q: nat)
    requires Ok(s) && ResidentOffSwap(s) && c.victim < |s.coremap| && Access(s, r, c, false).Some?
    ensures var t := Access(s, r, c, false).value; var v := Victim(s, r.vaddr, c);
      && LifeOf(EntryOf(t, q)) == LifeStep(LifeOf(EntryOf(s, q)), PageOf(r.vaddr) == q, r.write, v == Some(q))
      && t.dirtyEvictions == s.dirtyEvictions + (if v.Some? && LifeOf(EntryOf(s, v.value)) == Changed then 1 else 0)
      && t.cleanEvictions == s.cleanEvictions + (if v.Some? && LifeOf(EntryOf(s, v.value)) == Clean then 1 else 0)
  {
    hide Ok, Access, Load, MakeRoom, Touch, LifeOf;
    var p := PageOf(r.vaddr);
    var m, f, t := Stages(s, r, c, false);
    LifeTouched(t, r, q);
    if !EntryOf(s, p).valid {
      LifeMoved(s, r.vaddr, c, q);
      LifeLoaded(m, f, r, q);
    }
  }

  // ---- Whole traces ----

  /** The last line of a trace. */
  lemma LastLine(memsize: nat, swapsize: nat, events: seq<Event>) returns (s: Pager, before: seq<Event>, e: Event)
    requires memsize > 0 && InRange(events, memsize) && Replay(memsize, swapsize, events, false).Some? && events != []
    ensures before == events[..|events| - 1] && e == events[|events| - 1] && InRange(before, memsize)
    ensures Replay(memsize, swapsize, before, false) == Some(s) && Ok(s) && ResidentOffSwap(s)
    ensures |s.coremap| == memsize && e.choice.victim < memsize
    ensures Replay(memsize, swapsize, events, false) == Access(s, e.ref, e.choice, false)
  {
    hide Access;
    before, e := events[..|events| - 1], events[|events| - 1];
    s := Replay(memsize, swapsize, before, false).value;
    ReplayInv(memsize, swapsize, before, false);
  }

  lemma {:induction false} LifeKnown(memsize: nat, swapsize: nat, events: seq<Event>, p: nat)
    requires memsize > 0 && InRange(events, memsize) && Replay(memsize, swapsize, events, false).Some?
    ensures LifeOf(EntryOf(Replay(memsize, swapsize, events, false).value, p))
      == LifeAfter(memsize, swapsize, events, p)
    decreases |events|
  {
    if events != [] {
      var s, before, e := LastLine(memsize, swapsize, events);
      hide Replay, Access, Ok, LifeOf, LifeStep, Victim;
      LifeKnown(memsize, swapsize, before, p);
      LifeAccessed(s, e.ref, e.choice, p);
    }
  }

  lemma {:induction false} EvictionsKnown(memsize: nat, swapsize: nat, events: seq<Event>)
    requires memsize > 0 && InRange(events, memsize) && Replay(memsize, swapsize, events, false).Some?
    ensures var s := Replay(memsize, swapsize, events, false).value;
      && s.dirtyEvictions == Evictions(memsize, swapsize, events, Changed)
      && s.cleanEvictions == Evictions(memsize, swapsize, events, Clean)
    decreases |events|
  {
    if events != [] {
      var s, before, e := LastLine(memsize, swapsize, events);
      hide Replay, Access, Ok, LifeOf, LifeStep, Victim;
      EvictionsKnown(memsize, swapsize, before);
      LifeAccessed(s, e.ref, e.choice, 0);
      var v := Victim(s, e.ref.vaddr, e.choice);
      if v.Some? { LifeKnown(memsize, swapsize, before, v.value); }
    }
  }

  /** For every trace and policy: a page is valid, dirty or on swap exactly as its life says, and as many
      dirty and clean evictions are counted as pages were evicted changed and clean. */
  lemma FlagsTellLife(memsize: nat, swapsize: nat, events: seq<Event>, p: nat)
    requires memsize > 0 && InRange(events, memsize) && Replay(memsize, swapsize, events, false).Some?
    ensures var s := Replay(memsize, swapsize, events, false).value; var e := EntryOf(s, p);
      var life := LifeAfter(memsize, swapsize, events, p);
      && (e.valid <==> life == Clean || life == Changed) && (e.dirty <==> life == Changed)
      && (e.onswap <==> life == Stored)
      && s.dirtyEvictions == Evictions(memsize, swapsize, events, Changed)
      && s.cleanEvictions == Evictions(memsize, swapsize, events, Clean)
  {
    LifeKnown(memsize, swapsize, events, p);
    EvictionsKnown(memsize, swapsize, events);
    ReplayInv(memsize, swapsize, events, false);
    var s := Replay(memsize, swapsize, events, false).value;
    if p in s.entries { assert EntryOk(s, p); }
  }
}
