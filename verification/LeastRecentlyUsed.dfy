/** The exact LRU policy run through the pager: the resident pages are always the most recently used
    ones, so more memory never means fewer hits. */
module LeastRecentlyUsed {
  import opened Options
  import opened PagerModel
  import opened PagerRuns
  import opened Counting

  /** s without the occurrences of x. */
  function Without(s: seq<nat>, x: nat): (r: seq<nat>)
    ensures |r| <= |s| && (x !in s ==> r == s)
  {
    if s == [] then []
    else (if s[0] == x then [] else [s[0]]) + Without(s[1..], x)
  }

  /** The list of frames after a reference: the frame moves to the end. */
  function Touched(order: seq<nat>, f: nat): seq<nat> {
    Without(order, f) + [f]
  }

  /** `lru_ref` on that list; None for the one case in which `in_list` dereferences a null pointer:
      the frame is the only one in the list. */
  function LruRef(order: seq<nat>, f: nat): Option<seq<nat>> {
    if order == [f] then None else Some(Touched(order, f))
  }

  /** `lru_evict`: the head leaves the list; None when no second element is left to become the head,
      whose null pointer it would dereference. */
  function LruEvict(order: seq<nat>): Option<(nat, seq<nat>)> {
    if |order| < 2 then None else Some((order[0], order[1..]))
  }

  datatype LruPager = LruPager(pager: Pager, order: seq<nat>)

  /** A reference misses while every frame is in use. */
  predicate MustEvict(s: Pager, vaddr: nat) {
    !EntryOf(s, PageOf(vaddr)).valid && FreeFrame(s.coremap) == |s.coremap|
  }

  /** One trace line under LRU. */
  function LruAccess(s: LruPager, r: Ref): (t: Option<LruPager>)
    requires Ok(s.pager) && |s.pager.coremap| > 0
    requires forall f :: f in s.order ==> f < |s.pager.coremap|
    ensures t.Some? ==> Ok(t.value.pager) && |t.value.pager.coremap| == |s.pager.coremap|
  {
    if MustEvict(s.pager, r.vaddr) then
      match LruEvict(s.order)
      case None => None
      case Some((victim, rest)) => assert s.order[0] in s.order; Referenced(s.pager, r, victim, rest)
    else Referenced(s.pager, r, 0, s.order)
  }

  /** The reference itself, then `lru_ref` on the page's frame. */
  function Referenced(s: Pager, r: Ref, victim: nat, order: seq<nat>): (t: Option<LruPager>)
    requires Ok(s) && victim < |s.coremap|
    ensures t.Some? ==> Ok(t.value.pager) && |t.value.pager.coremap| == |s.coremap|
  {
    match Access(s, r, Choice(victim, {}), false)
    case None => None
    case Some(t) =>
      match LruRef(order, EntryOf(t, PageOf(r.vaddr)).frame)
      case None => None
      case Some(after) => Some(LruPager(t, after))
  }

  /** The list holds exactly the frames in use, once each. */
  ghost predicate Lists(order: seq<nat>, s: Pager) {
    && Distinct(order)
    && (forall f: nat :: f in order <==> f < |s.coremap| && s.coremap[f].Some?)
    && (forall f :: FreeFrame(s.coremap) <= f < |s.coremap| ==> s.coremap[f].None?)
  }

  function LruRun(memsize: nat, swapsize: nat, refs: seq<Ref>): (s: Option<LruPager>)
    requires memsize > 0
    ensures s.Some? ==> Ok(s.value.pager) && |s.value.pager.coremap| == memsize
    ensures s.Some? ==> Lists(s.value.order, s.value.pager)
    decreases |refs|, 1
  {
    if refs == [] then
      StartLists(memsize, swapsize);
      Some(LruPager(Start(memsize, swapsize), []))
    else
      var n := |refs| - 1;
      match LruRun(memsize, swapsize, refs[..n])
      case None => None
      case Some(s) => LruAccessLists(s, refs[n]); LruAccess(s, refs[n])
  }

  // ---- Lists ----

  lemma {:induction false} WithoutIn(s: seq<nat>, x: nat, y: nat)
    ensures y in Without(s, x) <==> y in s && y != x
  {
    if s != [] {
      WithoutIn(s[1..], x, y);
      assert y in s <==> y == s[0] || y in s[1..];
    }
  }

  lemma {:induction false} WithoutDistinct(s: seq<nat>, x: nat)
    requires Distinct(s)
    ensures Distinct(Without(s, x))
    ensures |Without(s, x)| == |s| - if x in s then 1 else 0
  {
    if s != [] {
      WithoutDistinct(s[1..], x);
      WithoutIn(s[1..], x, s[0]);
      assert s[0] !in s[1..];
      assert x in s <==> x == s[0] || x in s[1..];
      var w := Without(s[1..], x);
      if s[0] != x {
        forall i, j | 0 <= i < j < |w| + 1 ensures Without(s, x)[i] != Without(s, x)[j] {
          if i == 0 { assert w[j - 1] in w; }
        }
      }
    }
  }

  lemma {:induction false} WithoutAppend(a: seq<nat>, b: seq<nat>, x: nat)
    ensures Without(a + b, x) == Without(a, x) + Without(b, x)
  {
    if a == [] {
      assert a + b == b;
    } else {
      assert (a + b)[1..] == a[1..] + b;
      WithoutAppend(a[1..], b, x);
    }
  }

  lemma TouchedDistinct(order: seq<nat>, f: nat)
    requires Distinct(order)
    ensures Distinct(Touched(order, f))
    ensures forall g :: g in Touched(order, f) <==> g in order || g == f
  {
    WithoutDistinct(order, f);
    forall g ensures g in Touched(order, f) <==> g in order || g == f { WithoutIn(order, f, g); }
    WithoutIn(order, f, f);
  }

  lemma StartLists(memsize: nat, swapsize: nat)
    ensures Ok(Start(memsize, swapsize)) && Lists([], Start(memsize, swapsize))
  {
    FreeFrameIs(Start(memsize, swapsize).coremap, 0);
  }

  /** Where an access puts the page, and what happens to the other frames. */
  lemma AccessFrames(s: Pager, r: Ref, c: Choice, keep: bool)
    requires Ok(s) && c.victim < |s.coremap| && Access(s, r, c, keep).Some?
    requires forall f :: FreeFrame(s.coremap) <= f < |s.coremap| ==> s.coremap[f].None?
    ensures var t := Access(s, r, c, keep).value; var p := PageOf(r.vaddr); var f := EntryOf(t, p).frame;
      && f < |s.coremap| && t.coremap == s.coremap[f := Some(p)]
      && (forall i :: FreeFrame(t.coremap) <= i < |t.coremap| ==> t.coremap[i].None?)
      && (EntryOf(s, p).valid ==> f == EntryOf(s, p).frame && s.coremap[f] == Some(p))
      && (!EntryOf(s, p).valid && FreeFrame(s.coremap) < |s.coremap| ==> f == FreeFrame(s.coremap))
      && (MustEvict(s, r.vaddr) ==> f == c.victim)
      && t.hits == s.hits + if EntryOf(s, p).valid then 1 else 0
  {
    var p := PageOf(r.vaddr);
    if EntryOf(s, p).valid {
      assert EntryOk(s, p);
    } else {
      MissFrames(s, r, c, keep);
    }
  }

  lemma MissFrames(s: Pager, r: Ref, c: Choice, keep: bool)
    requires Ok(s) && c.victim < |s.coremap| && Access(s, r, c, keep).Some? && !EntryOf(s, PageOf(r.vaddr)).valid
    requires forall f :: FreeFrame(s.coremap) <= f < |s.coremap| ==> s.coremap[f].None?
    ensures var t := Access(s, r, c, keep).value; var p := PageOf(r.vaddr); var f := EntryOf(t, p).frame;
      && f == (if FreeFrame(s.coremap) < |s.coremap| then FreeFrame(s.coremap) else c.victim)
      && t.coremap == s.coremap[f := Some(p)]
      && (forall i :: FreeFrame(t.coremap) <= i < |t.coremap| ==> t.coremap[i].None?)
      && t.hits == s.hits
  {
    var p := PageOf(r.vaddr);
    var m, f, t := Stages(s, r, c, keep);
    MakeRoomCounters(s, c);
    MakeRoomFrame(s, c);
    LoadCounters(m, f, p, r.vaddr, keep);
    LoadFrame(m, f, p, r.vaddr, keep);
    TouchFrame(t, r);
    FramesFilled(s.coremap, m.coremap, t.coremap, f, p);
  }

  lemma FramesFilled(before: seq<Option<nat>>, room: seq<Option<nat>>, after: seq<Option<nat>>, f: nat, p: nat)
    requires forall i :: FreeFrame(before) <= i < |before| ==> before[i].None?
    requires f < |before| == |room| && after == room[f := Some(p)]
    requires if FreeFrame(before) == |before| then room == before[f := None]
      else room == before && f == FreeFrame(before)
    ensures after == before[f := Some(p)]
    ensures forall i :: FreeFrame(after) <= i < |after| ==> after[i].None?
  {
    assert after == before[f := Some(p)];
    FramesGrow(before, f, p);
  }

  lemma MakeRoomFrame(s: Pager, c: Choice)
    requires Ok(s) && c.victim < |s.coremap|
    ensures MakeRoom(s, c).1 == if FreeFrame(s.coremap) < |s.coremap| then FreeFrame(s.coremap) else c.victim
  {
  }

  lemma TouchFrame(s: Pager, r: Ref)
    requires PageOf(r.vaddr) in s.entries && s.entries[PageOf(r.vaddr)].frame < |s.phys|
    ensures EntryOf(Touch(s, r), PageOf(r.vaddr)).frame == s.entries[PageOf(r.vaddr)].frame
    ensures Touch(s, r).coremap == s.coremap && Touch(s, r).hits == s.hits
  {
  }

  lemma LoadFrame(s: Pager, f: nat, p: nat, vaddr: nat, keep: bool)
    requires Ok(s) && f < |s.coremap| && (p in s.entries ==> EntryOk(s, p))
    requires Load(s, f, p, vaddr, keep).Some?
    ensures var t := Load(s, f, p, vaddr, keep).value; p in t.entries && t.entries[p].frame == f
  {
  }

  /** The frame list after one access, and the access behind it. */
  lemma LruStages(s: LruPager, r: Ref) returns (rest: seq<nat>, victim: nat)
    requires Ok(s.pager) && |s.pager.coremap| > 0 && Lists(s.order, s.pager) && LruAccess(s, r).Some?
    ensures victim < |s.pager.coremap|
    ensures Access(s.pager, r, Choice(victim, {}), false) == Some(LruAccess(s, r).value.pager)
    ensures if MustEvict(s.pager, r.vaddr) then s.order == [victim] + rest else rest == s.order
    ensures LruAccess(s, r).value.order == Touched(rest, EntryOf(LruAccess(s, r).value.pager, PageOf(r.vaddr)).frame)
  {
    hide Access;
    if MustEvict(s.pager, r.vaddr) {
      rest, victim := s.order[1..], s.order[0];
      assert victim in s.order;
    } else {
      rest, victim := s.order, 0;
    }
  }

  lemma LruAccessLists(s: LruPager, r: Ref)
    requires Ok(s.pager) && |s.pager.coremap| > 0 && Lists(s.order, s.pager)
    ensures LruAccess(s, r).Some? ==> Lists(LruAccess(s, r).value.order, LruAccess(s, r).value.pager)
  {
    if LruAccess(s, r).Some? {
      var rest, victim := LruStages(s, r);
      AccessFrames(s.pager, r, Choice(victim, {}), false);
      var t := LruAccess(s, r).value.pager;
      ListsAfter(s.order, s.pager.coremap, rest, EntryOf(t, PageOf(r.vaddr)).frame, PageOf(r.vaddr),
        MustEvict(s.pager, r.vaddr), victim);
    }
  }

  lemma ListsAfter(order: seq<nat>, coremap: seq<Option<nat>>, rest: seq<nat>, f: nat, p: nat, evict: bool, victim: nat)
    requires Distinct(order) && f < |coremap|
    requires forall g: nat :: g in order <==> g < |coremap| && coremap[g].Some?
    requires if evict then order == [victim] + rest && f == victim else rest == order
    ensures Distinct(Touched(rest, f))
    ensures forall g: nat :: g in Touched(rest, f) <==> g < |coremap| && coremap[f := Some(p)][g].Some?
  {
    forall i, j | 0 <= i < j < |rest| ensures rest[i] != rest[j] {
      if evict { assert order[i + 1] == rest[i] && order[j + 1] == rest[j]; }
    }
    TouchedDistinct(rest, f);
    assert evict ==> forall g :: g in order <==> g in rest || g == victim;
  }
}
