/** The stack property of the LRU policy as implemented: no Belady anomaly. */
module Belady {
  import opened Options
  import opened PagerModel
  import opened LeastRecentlyUsed
  import opened Counting

  /** The distinct pages of a trace, least recently used first: the reference notion of recency,
      which knows nothing of frames. */
  function Recency(refs: seq<Ref>): seq<nat> {
    if refs == [] then []
    else
      var n := |refs| - 1;
      Touched(Recency(refs[..n]), PageOf(refs[n].vaddr))
  }

  /** The last k elements. */
  function Latest(s: seq<nat>, k: nat): seq<nat> {
    if k >= |s| then s else s[|s| - k..]
  }

  predicate Frames(order: seq<nat>, coremap: seq<Option<nat>>) {
    forall i :: 0 <= i < |order| ==> order[i] < |coremap| && coremap[order[i]].Some?
  }

  /** The page in each listed frame. */
  function PagesIn(order: seq<nat>, coremap: seq<Option<nat>>): (r: seq<nat>)
    requires Frames(order, coremap)
    ensures |r| == |order|
  {
    if order == [] then []
    else [coremap[order[0]].value] + PagesIn(order[1..], coremap)
  }

  lemma {:induction false} PagesAt(order: seq<nat>, coremap: seq<Option<nat>>, i: nat)
    requires Frames(order, coremap) && i < |order|
    ensures PagesIn(order, coremap)[i] == coremap[order[i]].value
  {
    if i > 0 { PagesAt(order[1..], coremap, i - 1); }
  }

  lemma {:induction false} RecencyDistinct(refs: seq<Ref>)
    ensures Distinct(Recency(refs))
  {
    if refs != [] {
      RecencyDistinct(refs[..|refs| - 1]);
      TouchedDistinct(Recency(refs[..|refs| - 1]), PageOf(refs[|refs| - 1].vaddr));
    }
  }

  lemma DistinctSplit(a: seq<nat>, s: seq<nat>, p: nat)
    requires Distinct(a + s) && p in s
    ensures p !in a && Distinct(s)
  {
    var j :| 0 <= j < |s| && s[j] == p;
    forall i | 0 <= i < |a| ensures a[i] != p {
      assert (a + s)[i] == a[i] && (a + s)[|a| + j] == p;
    }
    forall i, k | 0 <= i < k < |s| ensures s[i] != s[k] {
      assert (a + s)[|a| + i] == s[i] && (a + s)[|a| + k] == s[k];
    }
  }

  lemma TouchedSuffix(a: seq<nat>, s: seq<nat>, p: nat)
    requires Distinct(a + s) && p in s
    ensures Touched(a + s, p) == a + Touched(s, p) && |Touched(s, p)| == |s|
  {
    DistinctSplit(a, s, p);
    WithoutAppend(a, s, p);
    WithoutDistinct(s, p);
  }

  /** A hit: the page moves to the end of both lists. */
  lemma LatestHit(all: seq<nat>, k: nat, p: nat)
    requires Distinct(all) && p in Latest(all, k)
    ensures Latest(Touched(all, p), k) == Touched(Latest(all, k), p)
  {
    var s := Latest(all, k);
    var a := all[..|all| - |s|];
    assert all == a + s;
    TouchedSuffix(a, s, p);
    TailOf(a, Touched(s, p), k);
  }

  lemma TailOf(a: seq<nat>, s: seq<nat>, k: nat)
    requires |s| <= k && (|s| < k ==> a == [])
    ensures Latest(a + s, k) == s
  {
    assert |s| < k ==> a + s == s;
  }

  /** A miss with room: every page is resident, and the new one is appended. */
  lemma LatestFill(all: seq<nat>, k: nat, p: nat)
    requires p !in all && |all| < k
    ensures Latest(Touched(all, p), k) == Latest(all, k) + [p]
  {
  }

  /** A miss without room: the least recent resident page makes way. */
  lemma LatestEvict(all: seq<nat>, k: nat, p: nat)
    requires Distinct(all) && 0 < k <= |all| && p !in Latest(all, k)
    ensures Latest(Touched(all, p), k) == Latest(all, k)[1..] + [p]
  {
    hide Distinct, Without;
    var s := Latest(all, k);
    var a := all[..|all| - k];
    assert all == a + s;
    WithoutAppend(a, s, p);
    assert Touched(all, p) == Without(a, p) + s + [p];
  }

  // ---- Frames and pages move alike ----

  lemma {:induction false} PagesWithout(order: seq<nat>, coremap: seq<Option<nat>>, f: nat)
    requires Frames(order, coremap) && f < |coremap| && coremap[f].Some?
    requires forall i :: 0 <= i < |order| && coremap[order[i]] == coremap[f] ==> order[i] == f
    ensures Frames(Without(order, f), coremap)
    ensures PagesIn(Without(order, f), coremap) == Without(PagesIn(order, coremap), coremap[f].value)
  {
    if order != [] {
      var rest := Without(order[1..], f);
      PagesWithout(order[1..], coremap, f);
      if order[0] != f {
        assert Without(order, f) == [order[0]] + rest;
        assert ([order[0]] + rest)[1..] == rest;
      } else {
        assert Without(order, f) == rest;
      }
    }
  }

  /** The frames of a list hold different pages. */
  lemma FramesDiffer(s: Pager, f: nat, g: nat)
    requires Ok(s) && f < |s.coremap| && g < |s.coremap| && s.coremap[f].Some? && s.coremap[f] == s.coremap[g]
    ensures f == g
  {
  }

  /** The resident pages, in the order of the frame list, are the latest ones. */
  ghost predicate Stack(s: LruPager, refs: seq<Ref>) {
    && Ok(s.pager) && Lists(s.order, s.pager) && Frames(s.order, s.pager.coremap)
    && PagesIn(s.order, s.pager.coremap) == Latest(Recency(refs), |s.pager.coremap|)
  }

  lemma ResidentPages(s: LruPager, p: nat)
    requires Ok(s.pager) && Lists(s.order, s.pager) && Frames(s.order, s.pager.coremap)
    ensures p in PagesIn(s.order, s.pager.coremap) <==> EntryOf(s.pager, p).valid
  {
    var r := PagesIn(s.order, s.pager.coremap);
    if EntryOf(s.pager, p).valid {
      assert EntryOk(s.pager, p);
      var f := s.pager.entries[p].frame;
      assert f in s.order;
      var i :| 0 <= i < |s.order| && s.order[i] == f;
      PagesAt(s.order, s.pager.coremap, i);
    }
    if p in r {
      var i :| 0 <= i < |r| && r[i] == p;
      PagesAt(s.order, s.pager.coremap, i);
    }
  }

  lemma SomeElement(order: seq<nat>)
    ensures order == [] || exists f :: f in order
  {
    if order != [] { assert order[0] in order; }
  }

  lemma WithoutLargest(order: seq<nat>, k: nat)
    requires Distinct(order) && forall f: nat :: f in order <==> f <= k
    ensures Distinct(Without(order, k)) && |Without(order, k)| == |order| - 1
    ensures forall f: nat :: f in Without(order, k) <==> f < k
  {
    WithoutDistinct(order, k);
    forall f: nat ensures f in Without(order, k) <==> f < k { WithoutIn(order, k, f); }
  }

  /** As many frames are in use as the list is long. */
  lemma {:induction false} ListLength(order: seq<nat>, n: nat)
    requires Distinct(order) && forall f: nat :: f in order <==> f < n
    ensures |order| == n
    decreases n
  {
    if n == 0 {
      SomeElement(order);
    } else {
      var k := n - 1;
      WithoutLargest(order, k);
      ListLength(Without(order, k), k);
    }
  }

  lemma InUse(s: LruPager)
    requires Ok(s.pager) && Lists(s.order, s.pager)
    ensures |s.order| == FreeFrame(s.pager.coremap)
  {
    ListLength(s.order, FreeFrame(s.pager.coremap));
  }

  lemma {:induction false} PagesElsewhere(order: seq<nat>, coremap: seq<Option<nat>>, f: nat, p: nat)
    requires Frames(order, coremap) && f < |coremap| && f !in order
    ensures Frames(order + [f], coremap[f := Some(p)])
    ensures PagesIn(order + [f], coremap[f := Some(p)]) == PagesIn(order, coremap) + [p]
  {
    if order == [] {
      assert order + [f] == [f];
      assert PagesIn([f], coremap[f := Some(p)]) == [p] + PagesIn([f][1..], coremap[f := Some(p)]);
    } else {
      assert order[0] in order && (order + [f])[0] == order[0];
      assert (order + [f])[1..] == order[1..] + [f];
      PagesElsewhere(order[1..], coremap, f, p);
    }
  }

  lemma PagesOfTouched(order: seq<nat>, coremap: seq<Option<nat>>, f: nat, p: nat)
    requires Frames(order, coremap) && f < |coremap| && coremap[f] == Some(p)
    requires forall i :: 0 <= i < |order| && coremap[order[i]] == coremap[f] ==> order[i] == f
    ensures Frames(Touched(order, f), coremap)
    ensures PagesIn(Touched(order, f), coremap) == Touched(PagesIn(order, coremap), p)
  {
    PagesWithout(order, coremap, f);
    WithoutIn(order, f, f);
    PagesElsewhere(Without(order, f), coremap, f, p);
    assert coremap[f := Some(p)] == coremap;
  }

  lemma HitKeepsStack(s: LruPager, refs: seq<Ref>, f: nat, p: nat)
    requires Stack(s, refs) && f in s.order && f < |s.pager.coremap| && s.pager.coremap[f] == Some(p)
    ensures Frames(Touched(s.order, f), s.pager.coremap)
    ensures PagesIn(Touched(s.order, f), s.pager.coremap) == Latest(Touched(Recency(refs), p), |s.pager.coremap|)
  {
    var cm := s.pager.coremap;
    forall i | 0 <= i < |s.order| && cm[s.order[i]] == cm[f] ensures s.order[i] == f {
      FramesDiffer(s.pager, s.order[i], f);
    }
    PagesOfTouched(s.order, cm, f, p);
    RecencyDistinct(refs);
    var i :| 0 <= i < |s.order| && s.order[i] == f;
    PagesAt(s.order, cm, i);
    LatestHit(Recency(refs), |cm|, p);
  }

  lemma FillKeepsStack(s: LruPager, refs: seq<Ref>, f: nat, p: nat)
    requires Stack(s, refs) && f == FreeFrame(s.pager.coremap) < |s.pager.coremap| && !EntryOf(s.pager, p).valid
    ensures Frames(Touched(s.order, f), s.pager.coremap[f := Some(p)])
    ensures PagesIn(Touched(s.order, f), s.pager.coremap[f := Some(p)])
      == Latest(Touched(Recency(refs), p), |s.pager.coremap|)
  {
    InUse(s);
    ResidentPages(s, p);
    PagesElsewhere(s.order, s.pager.coremap, f, p);
    LatestFill(Recency(refs), |s.pager.coremap|, p);
  }

  lemma EvictKeepsStack(s: LruPager, refs: seq<Ref>, rest: seq<nat>, f: nat, p: nat)
    requires Stack(s, refs) && FreeFrame(s.pager.coremap) == |s.pager.coremap| > 0 && !EntryOf(s.pager, p).valid
    requires s.order == [f] + rest && f < |s.pager.coremap|
    ensures Frames(Touched(rest, f), s.pager.coremap[f := Some(p)])
    ensures PagesIn(Touched(rest, f), s.pager.coremap[f := Some(p)])
      == Latest(Touched(Recency(refs), p), |s.pager.coremap|)
  {
    InUse(s);
    ResidentPages(s, p);
    forall i | 0 <= i < |rest| ensures rest[i] != f {
      assert s.order[0] == f && s.order[i + 1] == rest[i];
    }
    assert rest == s.order[1..];
    PagesElsewhere(rest, s.pager.coremap, f, p);
    RecencyDistinct(refs);
    LatestEvict(Recency(refs), |s.pager.coremap|, p);
  }

  /** One reference keeps the stack property, whether it hits, fills a free frame or evicts. */
  lemma AccessKeepsStack(s: LruPager, refs: seq<Ref>, r: Ref)
    requires Stack(s, refs) && |s.pager.coremap| > 0 && LruAccess(s, r).Some?
    ensures Stack(LruAccess(s, r).value, refs + [r])
    ensures LruAccess(s, r).value.pager.hits
      == s.pager.hits + if PageOf(r.vaddr) in Latest(Recency(refs), |s.pager.coremap|) then 1 else 0
  {
    var p := PageOf(r.vaddr);
    assert (refs + [r])[..|refs|] == refs;
    var rest, victim := LruStages(s, r);
    AccessFrames(s.pager, r, Choice(victim, {}), false);
    LruAccessLists(s, r);
    ResidentPages(s, p);
    var f := EntryOf(LruAccess(s, r).value.pager, p).frame;
    if EntryOf(s.pager, p).valid {
      HitKeepsStack(s, refs, f, p);
      assert s.pager.coremap[f := Some(p)] == s.pager.coremap;
    } else if MustEvict(s.pager, r.vaddr) {
      EvictKeepsStack(s, refs, rest, f, p);
    } else {
      FillKeepsStack(s, refs, f, p);
    }
  }

  /** The stack theorem: after any trace the resident pages are exactly the most recently used
      distinct ones, as many as there are frames. */
  lemma {:induction false} StackTheorem(memsize: nat, swapsize: nat, refs: seq<Ref>)
    requires memsize > 0 && LruRun(memsize, swapsize, refs).Some?
    ensures Stack(LruRun(memsize, swapsize, refs).value, refs)
  {
    if refs == [] {
      StartLists(memsize, swapsize);
      assert Frames([], Start(memsize, swapsize).coremap);
    } else {
      var before, r := refs[..|refs| - 1], refs[|refs| - 1];
      assert refs == before + [r];
      StackTheorem(memsize, swapsize, before);
      var s := LruRun(memsize, swapsize, before).value;
      assert LruRun(memsize, swapsize, refs) == LruAccess(s, r);
      AccessKeepsStack(s, before, r);
    }
  }

  lemma ResidentsAreLatest(memsize: nat, swapsize: nat, refs: seq<Ref>, p: nat)
    requires memsize > 0 && LruRun(memsize, swapsize, refs).Some?
    ensures EntryOf(LruRun(memsize, swapsize, refs).value.pager, p).valid <==> p in Latest(Recency(refs), memsize)
  {
    StackTheorem(memsize, swapsize, refs);
    ResidentPages(LruRun(memsize, swapsize, refs).value, p);
  }

  /** More frames, more residents. */
  lemma LatestGrows(s: seq<nat>, k: nat, m: nat, p: nat)
    requires k <= m && p in Latest(s, k)
    ensures p in Latest(s, m)
  {
    var i :| 0 <= i < |Latest(s, k)| && Latest(s, k)[i] == p;
    var j := i + |s| - |Latest(s, k)|;
    assert s[j] == p && Latest(s, m)[j - (|s| - |Latest(s, m)|)] == p;
  }

  /** A reference hits exactly when its page is among the latest. */
  lemma HitExactly(memsize: nat, swapsize: nat, refs: seq<Ref>)
    requires memsize > 0 && refs != [] && LruRun(memsize, swapsize, refs).Some?
    ensures var before := refs[..|refs| - 1];
      && LruRun(memsize, swapsize, before).Some?
      && LruRun(memsize, swapsize, refs).value.pager.hits == LruRun(memsize, swapsize, before).value.pager.hits
         + if PageOf(refs[|refs| - 1].vaddr) in Latest(Recency(before), memsize) then 1 else 0
  {
    var before, r := refs[..|refs| - 1], refs[|refs| - 1];
    StackTheorem(memsize, swapsize, before);
    AccessKeepsStack(LruRun(memsize, swapsize, before).value, before, r);
  }

  lemma {:induction false} MoreFramesMoreHits(small: nat, large: nat, swapsize: nat, refs: seq<Ref>)
    requires 0 < small <= large
    requires LruRun(small, swapsize, refs).Some? && LruRun(large, swapsize, refs).Some?
    ensures LruRun(small, swapsize, refs).value.pager.hits <= LruRun(large, swapsize, refs).value.pager.hits
  {
    if refs != [] {
      var before, q := refs[..|refs| - 1], PageOf(refs[|refs| - 1].vaddr);
      HitExactly(small, swapsize, refs);
      HitExactly(large, swapsize, refs);
      MoreFramesMoreHits(small, large, swapsize, before);
      if q in Latest(Recency(before), small) { LatestGrows(Recency(before), small, large, q); }
    }
  }

  /** No Belady anomaly: with more frames every page resident with fewer is resident, and the hit
      count is at least as high. */
  lemma NoBeladyAnomaly(small: nat, large: nat, swapsize: nat, refs: seq<Ref>, p: nat)
    requires 0 < small <= large
    requires LruRun(small, swapsize, refs).Some? && LruRun(large, swapsize, refs).Some?
    ensures var s, t := LruRun(small, swapsize, refs).value.pager, LruRun(large, swapsize, refs).value.pager;
      && (EntryOf(s, p).valid ==> EntryOf(t, p).valid)
      && s.hits <= t.hits
  {
    ResidentsAreLatest(small, swapsize, refs, p);
    ResidentsAreLatest(large, swapsize, refs, p);
    if p in Latest(Recency(refs), small) { LatestGrows(Recency(refs), small, large, p); }
    MoreFramesMoreHits(small, large, swapsize, refs);
  }
}
