/** Whole traces under each of the policies as coded, and what the theorems on arbitrary policies and
    on LRU say about them. */
module PolicyRuns {
  import opened Options
  import opened PagerModel
  import opened PagerContents
  import opened PagerRuns
  import opened FlatMemory
  import opened LeastRecentlyUsed
  import opened LruCompletes
  import opened Policies

  function PolicyRun(policy: Policy, memsize: nat, swapsize: nat, refs: seq<Ref>): (s: Option<(Policy, Pager)>)
    requires memsize > 0 && PolicyOk(policy, memsize)
    ensures s.Some? ==> Ok(s.value.1) && |s.value.1.coremap| == memsize && PolicyOk(s.value.0, memsize)
  {
    if refs == [] then
      Some((policy, Start(memsize, swapsize)))
    else
      match PolicyRun(policy, memsize, swapsize, refs[..|refs| - 1])
      case None => None
      case Some((after, s)) => PolicyStaysOk(after, s, refs[|refs| - 1]); PolicyAccess(after, s, refs[|refs| - 1])
  }

  lemma PolicyStaysOk(policy: Policy, s: Pager, r: Ref)
    requires Ok(s) && |s.coremap| > 0 && PolicyOk(policy, |s.coremap|)
    ensures var t := PolicyAccess(policy, s, r); t.Some? ==> PolicyOk(t.value.0, |s.coremap|)
  {
    var t := PolicyAccess(policy, s, r);
    if t.Some? && policy.Lru? {
      var (c, after) := Chosen(policy, s, r).value;
      ResidentOk(s, r.vaddr, c, false);
      forall f | f in t.value.0.order ensures f < |s.coremap| {
        WithoutIn(after.order, EntryOf(t.value.1, PageOf(r.vaddr)).frame, f);
      }
    }
  }

  lemma RunStep(policy: Policy, memsize: nat, swapsize: nat, refs: seq<Ref>, i: nat)
    requires memsize > 0 && PolicyOk(policy, memsize) && i < |refs|
    ensures PolicyRun(policy, memsize, swapsize, refs[..i + 1]) ==
      match PolicyRun(policy, memsize, swapsize, refs[..i])
      case None => None
      case Some((after, s)) => PolicyAccess(after, s, refs[i])
  {
    var upto := refs[..i + 1];
    assert upto[..|upto| - 1] == refs[..i];
  }

  lemma {:induction false} PrefixRuns(policy: Policy, memsize: nat, swapsize: nat, refs: seq<Ref>, n: nat)
    requires memsize > 0 && PolicyOk(policy, memsize) && n <= |refs|
    requires PolicyRun(policy, memsize, swapsize, refs).Some?
    ensures PolicyRun(policy, memsize, swapsize, refs[..n]).Some?
    decreases |refs|
  {
    if n < |refs| {
      var before := refs[..|refs| - 1];
      assert before[..n] == refs[..n];
      PrefixRuns(policy, memsize, swapsize, before, n);
    } else {
      assert refs[..n] == refs;
    }
  }

  /** A run under a policy is a replay in which the policy has made its choices, so that everything
      proved of arbitrary policies holds of it. */
  lemma {:induction false} PolicyRunIsReplay(policy: Policy, memsize: nat, swapsize: nat, refs: seq<Ref>)
      returns (events: seq<Event>)
    requires memsize > 0 && PolicyOk(policy, memsize) && PolicyRun(policy, memsize, swapsize, refs).Some?
    ensures Events(events, refs, memsize)
    ensures Replay(memsize, swapsize, events, false) == Some(PolicyRun(policy, memsize, swapsize, refs).value.1)
  {
    hide Replay, Events, Access;
    if refs == [] {
      events := [];
      NoRefs(memsize, swapsize);
    } else {
      var before, r := refs[..|refs| - 1], refs[|refs| - 1];
      var events0 := PolicyRunIsReplay(policy, memsize, swapsize, before);
      var (after, s) := PolicyRun(policy, memsize, swapsize, before).value;
      var e := Event(r, Chosen(after, s, r).value.0);
      events := events0 + [e];
      ReplayMore(memsize, swapsize, events0, before, s, e, PolicyAccess(after, s, r).value.1);
      assert refs == before + [r];
    }
  }

  /** FIFO and the clock get through every trace for which there is a swap slot per page. */
  lemma {:induction false} FifoAndClockComplete(policy: Policy, memsize: nat, swapsize: nat, refs: seq<Ref>)
    requires memsize > 0 && PolicyOk(policy, memsize) && !policy.Lru? && |RefPages(refs)| <= swapsize
    ensures var t := PolicyRun(policy, memsize, swapsize, refs); t.Some? && !t.value.0.Lru?
  {
    hide RoomOnSwap, Access;
    if refs != [] {
      var before, r := refs[..|refs| - 1], refs[|refs| - 1];
      assert refs == before + [r];
      FewerPages(before, r);
      FifoAndClockComplete(policy, memsize, swapsize, before);
      var (after, s) := PolicyRun(policy, memsize, swapsize, before).value;
      RunHasRoom(policy, memsize, swapsize, before);
      AccessSucceeds(s, r, Chosen(after, s, r).value.0, false);
    }
  }

  lemma RunHasRoom(policy: Policy, memsize: nat, swapsize: nat, refs: seq<Ref>)
    requires memsize > 0 && PolicyOk(policy, memsize) && PolicyRun(policy, memsize, swapsize, refs).Some?
    requires |RefPages(refs)| <= swapsize
    ensures var s := PolicyRun(policy, memsize, swapsize, refs).value.1; RoomOnSwap(s) && OnSwapHasSlot(s)
  {
    var events := PolicyRunIsReplay(policy, memsize, swapsize, refs);
    EventPages(events, refs, memsize);
    ReplayInv(memsize, swapsize, events, false);
    var s := PolicyRun(policy, memsize, swapsize, refs).value.1;
    assert |s.entries| == |s.entries.Keys|;
    EnoughSwap(s);
  }

  /** LRU's runs are those of LeastRecentlyUsed. */
  lemma {:induction false} LruRunIsPolicyRun(memsize: nat, swapsize: nat, refs: seq<Ref>)
    requires memsize > 0
    ensures PolicyRun(Lru([]), memsize, swapsize, refs) ==
      match LruRun(memsize, swapsize, refs) case None => None case Some(s) => Some((Lru(s.order), s.pager))
  {
    if refs != [] {
      var before, r := refs[..|refs| - 1], refs[|refs| - 1];
      LruRunIsPolicyRun(memsize, swapsize, before);
      if LruRun(memsize, swapsize, before).Some? {
        LruIsPolicy(LruRun(memsize, swapsize, before).value, r);
      }
    }
  }

  /** What the counters and the address check come to on any trace of page-aligned addresses. */
  lemma RunCounters(policy: Policy, memsize: nat, swapsize: nat, refs: seq<Ref>)
    requires memsize > 0 && PolicyOk(policy, memsize) && PolicyRun(policy, memsize, swapsize, refs).Some?
    requires |RefPages(refs)| <= swapsize && forall i :: 0 <= i < |refs| ==> refs[i].vaddr % PAGE_SIZE == 0
    ensures var s := PolicyRun(policy, memsize, swapsize, refs).value.1;
      && s.errors == 0 && s.hits + s.misses == s.refs == |refs|
      && s.misses == s.cleanEvictions + s.dirtyEvictions + FreeFrame(s.coremap)
  {
    var events := PolicyRunIsReplay(policy, memsize, swapsize, refs);
    EventPages(events, refs, memsize);
    AddressCheckPasses(memsize, swapsize, events, false);
    ReplayInv(memsize, swapsize, events, false);
  }
}
