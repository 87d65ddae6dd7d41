/** The replacement policies as coded, and the pager driven by one of them. */
module Policies {
  import opened Options
  import opened PagerModel
  import opened LeastRecentlyUsed
  import opened Counting

  // ---- Going round the frames ----

  /** The next frame, `(f + 1) % n`. */
  function Next(f: nat, n: nat): nat {
    if f + 1 >= n then 0 else f + 1
  }

  lemma NextIsModulo(f: nat, n: nat)
    requires f < n
    ensures (f + 1) % n == Next(f, n)
  {
    if f + 1 < n { ModuloSmall(f + 1, n); }
  }

  lemma ModuloSmall(a: nat, n: nat)
    requires a < n
    ensures a % n == a
  {
  }

  /** The frame j places on from the hand. */
  function Place(hand: nat, j: nat, n: nat): nat
    requires hand < n && j <= n
  {
    if hand + j < n then hand + j else hand + j - n
  }

  /** How many places on from the hand frame f is. */
  function Distance(hand: nat, f: nat, n: nat): nat
    requires hand < n && f < n
  {
    if f >= hand then f - hand else f + n - hand
  }

  // ---- The clock ----

  /** The reference bit of the page in each frame. */
  function RefBits(s: Pager): (b: seq<bool>)
    ensures |b| == |s.coremap|
  {
    seq(|s.coremap|, f requires 0 <= f < |s.coremap| => s.coremap[f].Some? && EntryOf(s, s.coremap[f].value).ref)
  }

  /** The scan of `clock_evict` on reference bits: how many frames from the hand on are skipped.
      Each skipped bit is cleared, so the scan ends. */
  function Skipped(bits: seq<bool>, hand: nat): (k: nat)
    requires hand < |bits|
    decreases Count(bits, true)
  {
    if !bits[hand] then 0
    else
      CountUpdate(bits, hand, false, true);
      1 + Skipped(bits[hand := false], Next(hand, |bits|))
  }

  /** The frame the clock should take, told from the bits alone: the first one from the hand on
      whose bit is clear, and the hand itself if all are set. */
  ghost predicate FirstClear(bits: seq<bool>, hand: nat, k: nat)
    requires hand < |bits|
  {
    && k <= |bits|
    && (forall f :: 0 <= f < |bits| && Distance(hand, f, |bits|) < k ==> bits[f])
    && (k < |bits| ==> !bits[Place(hand, k, |bits|)])
  }

  /** The bits after the first k frames from the hand on have lost theirs. */
  function Swept(bits: seq<bool>, hand: nat, k: nat): (b: seq<bool>)
    requires hand < |bits|
    ensures |b| == |bits|
  {
    seq(|bits|, f requires 0 <= f < |bits| => bits[f] && Distance(hand, f, |bits|) >= k)
  }

  lemma {:induction false} SkippedFrom(bits: seq<bool>, hand: nat, i: nat)
    requires hand < |bits| && i <= |bits|
    requires forall f :: 0 <= f < |bits| && Distance(hand, f, |bits|) < i ==> bits[f]
    ensures FirstClear(bits, hand, i + Skipped(Swept(bits, hand, i), Place(hand, i, |bits|)))
    decreases |bits| - i
  {
    var n := |bits|;
    var cur := Place(hand, i, n);
    var b := Swept(bits, hand, i);
    if i < n && bits[cur] {
      assert b[cur := false] == Swept(bits, hand, i + 1);
      assert Next(cur, n) == Place(hand, i + 1, n);
      SkippedFrom(bits, hand, i + 1);
    }
  }

  /** The clock scan is exact: it stops within n skips at the first clear bit from the hand on. */
  lemma ClockIsExact(bits: seq<bool>, hand: nat)
    requires hand < |bits|
    ensures FirstClear(bits, hand, Skipped(bits, hand))
  {
    assert Swept(bits, hand, 0) == bits;
    SkippedFrom(bits, hand, 0);
  }

  /** There is only one such frame. */
  lemma FirstClearIsUnique(bits: seq<bool>, hand: nat, k: nat, m: nat)
    requires hand < |bits| && FirstClear(bits, hand, k) && FirstClear(bits, hand, m)
    ensures k == m
  {
    if k < |bits| { PlaceDistance(hand, k, |bits|); }
    if m < |bits| { PlaceDistance(hand, m, |bits|); }
  }

  lemma PlaceDistance(hand: nat, j: nat, n: nat)
    requires hand < n && j < n
    ensures Place(hand, j, n) < n && Distance(hand, Place(hand, j, n), n) == j
  {
  }

  // ---- A policy's decisions ----

  /** FIFO's `start`, the clock's `circular_hand`, the LRU list. */
  datatype Policy = Fifo(start: int) | Clock(hand: nat) | Lru(order: seq<nat>)

  /** The policy's state is usable with n frames. */
  ghost predicate PolicyOk(policy: Policy, n: nat) {
    match policy
    case Fifo(start) => -1 <= start < n
    case Clock(hand) => hand < n
    case Lru(order) => forall f :: f in order ==> f < n
  }

  /** `evict_fcn` when every frame is in use; None when LRU dereferences a null pointer. */
  function Decide(policy: Policy, s: Pager): Option<(Choice, Policy)>
    requires |s.coremap| > 0 && PolicyOk(policy, |s.coremap|)
  {
    var n := |s.coremap|;
    match policy
    case Fifo(start) =>
      var f := if start < 0 then 0 else Next(start, n);
      Some((Choice(f, {}), Fifo(f)))
    case Clock(hand) =>
      ClockIsExact(RefBits(s), hand);
      var k := Skipped(RefBits(s), hand);
      var f := Place(hand, k, n);
      Some((Choice(f, set g: nat | g < n && Distance(hand, g, n) < k), Clock(f)))
    case Lru(order) =>
      match LruEvict(order)
      case None => None
      case Some((f, rest)) => Some((Choice(f, {}), Lru(rest)))
  }

  /** `ref_fcn`. */
  function Refer(policy: Policy, frame: nat): Option<Policy> {
    match policy
    case Lru(order) => (match LruRef(order, frame) case None => None case Some(after) => Some(Lru(after)))
    case _ => Some(policy)
  }

  lemma DecideOk(policy: Policy, s: Pager)
    requires |s.coremap| > 0 && PolicyOk(policy, |s.coremap|)
    ensures Decide(policy, s).Some? ==>
      Decide(policy, s).value.0.victim < |s.coremap| && PolicyOk(Decide(policy, s).value.1, |s.coremap|)
  {
    match policy
    case Fifo(_) =>
    case Clock(hand) => ClockIsExact(RefBits(s), hand);
    case Lru(order) =>
      if |order| > 0 { assert order[0] in order; }
      assert forall f :: |order| > 0 && f in order[1..] ==> f in order;
  }

  /** What the policy chooses on a reference, and its state before `ref_fcn`. */
  function Chosen(policy: Policy, s: Pager, r: Ref): (c: Option<(Choice, Policy)>)
    requires |s.coremap| > 0 && PolicyOk(policy, |s.coremap|)
    ensures c.Some? ==> c.value.0.victim < |s.coremap| && PolicyOk(c.value.1, |s.coremap|)
  {
    DecideOk(policy, s);
    if MustEvict(s, r.vaddr) then Decide(policy, s) else Some((Choice(0, {}), policy))
  }

  /** One trace line under a policy. */
  function PolicyAccess(policy: Policy, s: Pager, r: Ref): (t: Option<(Policy, Pager)>)
    requires Ok(s) && |s.coremap| > 0 && PolicyOk(policy, |s.coremap|)
    ensures t.Some? ==> Ok(t.value.1) && |t.value.1.coremap| == |s.coremap|
  {
    match Chosen(policy, s, r)
    case None => None
    case Some((c, after)) =>
      match Access(s, r, c, false)
      case None => None
      case Some(t) =>
        match Refer(after, EntryOf(t, PageOf(r.vaddr)).frame)
        case None => None
        case Some(done) => Some((done, t))
  }

  /** The LRU pager of LeastRecentlyUsed is this pager with the LRU policy. */
  lemma LruIsPolicy(s: LruPager, r: Ref)
    requires Ok(s.pager) && |s.pager.coremap| > 0 && forall f :: f in s.order ==> f < |s.pager.coremap|
    ensures PolicyAccess(Lru(s.order), s.pager, r) ==
      match LruAccess(s, r) case None => None case Some(t) => Some((Lru(t.order), t.pager))
  {
    if MustEvict(s.pager, r.vaddr) && |s.order| >= 2 { assert s.order[0] in s.order; }
  }
}
