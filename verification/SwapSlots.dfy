/** Which pages have a place in the swap file, and when a run aborts: also with less swap than there are
    pages. */
module SwapSlots {
  import opened Options
  import opened Counting
  import opened PagerModel
  import opened PagerRuns
  import opened PageLives

  /** The pages with a slot of their own, in the order in which they got it: the first ones to be evicted
      changed, as many as the swap file holds. */
  function Slotted(memsize: nat, swapsize: nat, events: seq<Event>): seq<nat>
    requires memsize > 0 && InRange(events, memsize)
  {
    if events == [] then []
    else
      var n := |events| - 1;
      var before := Slotted(memsize, swapsize, events[..n]);
      match Replay(memsize, swapsize, events[..n], false)
      case None => before
      case Some(s) =>
        match Victim(s, events[n].ref.vaddr, events[n].choice)
        case None => before
        case Some(v) =>
          if LifeAfter(memsize, swapsize, events[..n], v) == Changed && v !in before && |before| < swapsize
          then before + [v] else before
  }

  // ---- One reference ----

  /** The swap file has room exactly while fewer pages have a slot than there are slots. */
  lemma RoomExactly(s: Pager)
    requires SlotsOwned(s)
    ensures FreeSlot(s.used) < |s.used| <==> |Owners(s)| < |s.used|
  {
    if FreeSlot(s.used) == |s.used| { AllUsed(s.used); } else { SomeUnused(s.used, FreeSlot(s.used)); }
  }

  lemma SomeUnused(used: seq<bool>, k: nat)
    requires k < |used| && !used[k]
    ensures Count(used, true) < |used|
  {
    CountUpdate(used, k, true, true);
    CountBound(used[k := true], true);
  }

  lemma OwnersEvicted(s: Pager, f: nat)
    requires Ok(s) && f < |s.coremap| && s.coremap[f].Some? && EntryOk(s, s.coremap[f].value)
    ensures var v := s.coremap[f].value;
      Owners(Evict(s, f)) ==
        if LifeOf(EntryOf(s, v)) == Changed && FreeSlot(s.used) < |s.used| then Owners(s) + {v} else Owners(s)
  {
  }

  lemma OwnersMoved(s: Pager, vaddr: nat, c: Choice)
    requires Ok(s) && c.victim < |s.coremap| && !EntryOf(s, PageOf(vaddr)).valid
    ensures var v := Victim(s, vaddr, c);
      Owners(MakeRoom(s, c).0) ==
        if v.Some? && LifeOf(EntryOf(s, v.value)) == Changed && FreeSlot(s.used) < |s.used|
        then Owners(s) + {v.value} else Owners(s)
  {
    if FreeFrame(s.coremap) == |s.coremap| {
      var t, v := ClearRefs(s, c.cleared), s.coremap[c.victim].value;
      ClearRefsOk(s, c.cleared);
      assert EntryOk(t, v);
      LifeCleared(s, c.cleared, v);
      OwnersEvicted(t, c.victim);
      assert Owners(t) == Owners(s);
    }
  }

  lemma OwnersAccessed(s: Pager, r: Ref, c: Choice)
    requires Ok(s) && c.victim < |s.coremap| && Access(s, r, c, false).Some?
    ensures var v := Victim(s, r.vaddr, c);
      Owners(Access(s, r, c, false).value) ==
        if v.Some? && LifeOf(EntryOf(s, v.value)) == Changed && FreeSlot(s.used) < |s.used|
        then Owners(s) + {v.value} else Owners(s)
  {
    hide Ok, Access, MakeRoom, Evict, LifeOf;
    var m, f, t := Stages(s, r, c, false);
    assert Owners(Touch(t, r)) == Owners(t);
    if !EntryOf(s, PageOf(r.vaddr)).valid {
      OwnersMoved(s, r.vaddr, c);
      assert Owners(t) == Owners(m);
    } else {
      assert Owners(t) == Owners(s);
    }
  }

  /** A reference aborts exactly if its page is to be read back and has no slot. */
  lemma AbortsHere(s: Pager, r: Ref, c: Choice)
    requires Ok(s) && c.victim < |s.coremap|
    ensures Access(s, r, c, false) == None <==>
      LifeOf(EntryOf(s, PageOf(r.vaddr))) == Stored && PageOf(r.vaddr) !in Owners(s)
  {
    var p := PageOf(r.vaddr);
    hide Ok, MakeRoom;
    if !EntryOf(s, p).valid {
      MakeRoomOk(s, c);
      MakeRoomKeepsAbsent(s, c, p);
    }
  }

  // ---- Whole traces ----

  function Members(s: seq<nat>): set<nat> {
    set p | p in s
  }

  lemma {:induction false} SetOf(s: seq<nat>)
    requires Distinct(s)
    ensures |Members(s)| == |s|
  {
    if s == [] {
      assert Members(s) == {};
    } else {
      SetOf(s[1..]);
      assert forall j :: 0 <= j < |s[1..]| ==> s[1..][j] == s[j + 1] != s[0];
      assert s == [s[0]] + s[1..];
      assert Members(s) == Members(s[1..]) + {s[0]};
    }
  }

  lemma DistinctMore(s: seq<nat>, v: nat)
    requires Distinct(s) && v !in s
    ensures Distinct(s + [v]) && Members(s + [v]) == Members(s) + {v}
  {
    forall i, j | 0 <= i < j < |s| + 1 ensures (s + [v])[i] != (s + [v])[j] {
      assert (s + [v])[i] == s[i] && s[i] in s;
    }
    assert forall p :: p in s + [v] <==> p in s || p == v;
    assert Members(s + [v]) == Members(s) + {v};
  }

  /** These are the pages that have a slot in state s. */
  ghost predicate Lists(s: Pager, list: seq<nat>, swapsize: nat) {
    Distinct(list) && |list| <= swapsize && Owners(s) == Members(list)
  }

  /** The list after the eviction of page v, if any. */
  function ListedAfter(list: seq<nat>, swapsize: nat, v: Option<nat>, changed: bool): seq<nat> {
    if v.Some? && changed && v.value !in list && |list| < swapsize then list + [v.value] else list
  }

  lemma ListStep(s: Pager, list: seq<nat>, swapsize: nat, r: Ref, c: Choice)
    requires Ok(s) && SlotsOwned(s) && |s.used| == swapsize && Lists(s, list, swapsize)
    requires c.victim < |s.coremap| && Access(s, r, c, false).Some?
    ensures var v := Victim(s, r.vaddr, c);
      Lists(Access(s, r, c, false).value,
        ListedAfter(list, swapsize, v, v.Some? && LifeOf(EntryOf(s, v.value)) == Changed), swapsize)
  {
    hide Access, Ok, LifeOf, Victim, Distinct, Owners, FreeSlot, SlotsOwned;
    RoomExactly(s);
    SetOf(list);
    OwnersAccessed(s, r, c);
    var v := Victim(s, r.vaddr, c);
    if v.Some? && v.value !in list { DistinctMore(list, v.value); }
  }

  lemma {:induction false} OwnersKnown(memsize: nat, swapsize: nat, events: seq<Event>)
    requires memsize > 0 && InRange(events, memsize) && Replay(memsize, swapsize, events, false).Some?
    ensures Lists(Replay(memsize, swapsize, events, false).value, Slotted(memsize, swapsize, events), swapsize)
    decreases |events|
  {
    if events != [] {
      var s, before, e := LastLine(memsize, swapsize, events);
      hide Access, Ok, LifeOf, Victim, Lists, SlotsOwned, LifeAfter;
      OwnersKnown(memsize, swapsize, before);
      ReplayInv(memsize, swapsize, before, false);
      ListStep(s, Slotted(memsize, swapsize, before), swapsize, e.ref, e.choice);
      var v := Victim(s, e.ref.vaddr, e.choice);
      if v.Some? { LifeKnown(memsize, swapsize, before, v.value); }
    }
  }

  /** Line i is to a page that is to be read back from swap and has no slot there. */
  ghost predicate Unreadable(memsize: nat, swapsize: nat, events: seq<Event>, i: nat)
    requires memsize > 0 && InRange(events, memsize) && i < |events|
  {
    var p := PageOf(events[i].ref.vaddr);
    LifeAfter(memsize, swapsize, events[..i], p) == Stored && p !in Slotted(memsize, swapsize, events[..i])
  }

  /** For every trace, policy and size of the swap file: a run aborts exactly if some line is to a page that
      was evicted changed when the swap file was full and had no slot from before. */
  lemma {:induction false} AbortsExactly(memsize: nat, swapsize: nat, events: seq<Event>)
    requires memsize > 0 && InRange(events, memsize)
    ensures Replay(memsize, swapsize, events, false) == None <==>
      exists i :: 0 <= i < |events| && Unreadable(memsize, swapsize, events, i)
    decreases |events|
  {
    hide *;
    if events == [] {
      NothingAborts(memsize, swapsize);
    } else {
      LastUnreadable(memsize, swapsize, events);
      LastAborts(memsize, swapsize, events);
      AbortsExactly(memsize, swapsize, events[..|events| - 1]);
    }
  }

  lemma NothingAborts(memsize: nat, swapsize: nat)
    requires memsize > 0
    ensures Replay(memsize, swapsize, [], false).Some?
  {
  }

  lemma LastUnreadable(memsize: nat, swapsize: nat, events: seq<Event>)
    requires memsize > 0 && InRange(events, memsize) && events != []
    ensures InRange(events[..|events| - 1], memsize)
    ensures var n := |events| - 1; var before := events[..n];
      (exists i :: 0 <= i < |events| && Unreadable(memsize, swapsize, events, i)) <==>
        (exists i :: 0 <= i < n && Unreadable(memsize, swapsize, before, i))
        || Unreadable(memsize, swapsize, events, n)
  {
    hide Unreadable;
    var n := |events| - 1;
    var before := events[..n];
    forall i | 0 <= i < n
      ensures Unreadable(memsize, swapsize, events, i) == Unreadable(memsize, swapsize, before, i)
    {
      SameLine(memsize, swapsize, events, i);
    }
  }

  lemma SameLine(memsize: nat, swapsize: nat, events: seq<Event>, i: nat)
    requires memsize > 0 && InRange(events, memsize) && i < |events| - 1
    ensures Unreadable(memsize, swapsize, events, i) == Unreadable(memsize, swapsize, events[..|events| - 1], i)
  {
    hide LifeAfter, Slotted;
    assert events[..|events| - 1][..i] == events[..i];
  }

  lemma LastAborts(memsize: nat, swapsize: nat, events: seq<Event>)
    requires memsize > 0 && InRange(events, memsize) && events != []
    ensures InRange(events[..|events| - 1], memsize)
    ensures var before := events[..|events| - 1];
      && (Replay(memsize, swapsize, before, false) == None ==> Replay(memsize, swapsize, events, false) == None)
      && (Replay(memsize, swapsize, before, false).Some? ==>
            (Replay(memsize, swapsize, events, false) == None <==>
               Unreadable(memsize, swapsize, events, |events| - 1)))
  {
    var before, e := events[..|events| - 1], events[|events| - 1];
    hide Access, Ok, LifeOf, Owners, LifeAfter, Slotted;
    if Replay(memsize, swapsize, before, false).Some? {
      var s, p := Replay(memsize, swapsize, before, false).value, PageOf(e.ref.vaddr);
      LifeKnown(memsize, swapsize, before, p);
      OwnersKnown(memsize, swapsize, before);
      assert p in Owners(s) <==> p in Slotted(memsize, swapsize, before);
      AbortsHere(s, e.ref, e.choice);
    }
  }
}
