/** FIFO's rotating hand is a queue of frames in the order they were loaded. */
module FifoOrder {
  import opened Options
  import opened PagerModel
  import opened PagerRuns
  import opened LeastRecentlyUsed
  import opened Policies

  /** The pager under FIFO, with the frames in use in the order of their last load. */
  datatype FifoPager = FifoPager(pager: Pager, start: int, loaded: seq<nat>)

  function FifoAccess(s: FifoPager, r: Ref): (t: Option<FifoPager>)
    requires Ok(s.pager) && |s.pager.coremap| > 0 && PolicyOk(Fifo(s.start), |s.pager.coremap|)
    ensures t.Some? ==> Ok(t.value.pager) && |t.value.pager.coremap| == |s.pager.coremap|
    ensures t.Some? ==> PolicyOk(Fifo(t.value.start), |s.pager.coremap|)
  {
    match PolicyAccess(Fifo(s.start), s.pager, r)
    case None => None
    case Some((policy, t)) =>
      var p := PageOf(r.vaddr);
      Some(FifoPager(t, policy.start,
        if EntryOf(s.pager, p).valid then s.loaded else Touched(s.loaded, EntryOf(t, p).frame)))
  }

  function FifoRun(memsize: nat, swapsize: nat, refs: seq<Ref>): (s: Option<FifoPager>)
    requires memsize > 0
    ensures s.Some? ==> Ok(s.value.pager) && |s.value.pager.coremap| == memsize
    ensures s.Some? ==> PolicyOk(Fifo(s.value.start), memsize)
  {
    if refs == [] then Some(FifoPager(Start(memsize, swapsize), -1, []))
    else
      match FifoRun(memsize, swapsize, refs[..|refs| - 1])
      case None => None
      case Some(s) => FifoAccess(s, refs[|refs| - 1])
  }

  /** The frame FIFO takes next. */
  function NextVictim(start: int, n: nat): nat
    requires n > 0 && -1 <= start < n
  {
    if start < 0 then 0 else Next(start, n)
  }

  /** All n frames from f on, going round. */
  function RoundFrom(f: nat, n: nat): (r: seq<nat>)
    requires f < n
    ensures |r| == n
  {
    seq(n, i requires 0 <= i < n => Place(f, i, n))
  }

  ghost predicate InLoadOrder(s: FifoPager) {
    var n := |s.pager.coremap|;
    var used := FreeFrame(s.pager.coremap);
    && n > 0 && -1 <= s.start < n
    && (forall f :: used <= f < n ==> s.pager.coremap[f].None?)
    && (used < n ==> s.start == -1 && s.loaded == seq(used, i => i))
    && (used == n ==> s.loaded == RoundFrom(NextVictim(s.start, n), n))
  }

  lemma RoundTail(f: nat, n: nat)
    requires f < n
    ensures RoundFrom(f, n)[1..] + [f] == RoundFrom(Next(f, n), n)
  {
  }

  lemma RoundOnce(f: nat, n: nat)
    requires f < n
    ensures f !in RoundFrom(f, n)[1..]
  {
    forall i | 0 <= i < n - 1 ensures RoundFrom(f, n)[1..][i] != f { }
  }

  /** The oldest frame is reloaded and becomes the youngest. */
  lemma RotateRound(f: nat, n: nat)
    requires f < n
    ensures Touched(RoundFrom(f, n), f) == RoundFrom(Next(f, n), n)
  {
    RoundOnce(f, n);
    RoundTail(f, n);
    HeadMoves(RoundFrom(f, n));
  }

  lemma HeadMoves(s: seq<nat>)
    requires s != [] && s[0] !in s[1..]
    ensures Touched(s, s[0]) == s[1..] + [s[0]]
  {
  }

  lemma FillRound(n: nat)
    requires n > 0
    ensures Touched(seq(n - 1, i => i), n - 1) == RoundFrom(0, n)
  {
    var s := seq(n - 1, i => i);
    assert (n - 1) !in s;
  }

  lemma FillOrder(k: nat)
    ensures Touched(seq(k, i => i), k) == seq(k + 1, i => i)
  {
    assert k !in seq(k, i => i);
  }

  lemma AccessKeepsLoadOrder(s: FifoPager, r: Ref)
    requires Ok(s.pager) && InLoadOrder(s) && FifoAccess(s, r).Some?
    ensures InLoadOrder(FifoAccess(s, r).value)
  {
    var n := |s.pager.coremap|;
    var c := Chosen(Fifo(s.start), s.pager, r).value.0;
    AccessFrames(s.pager, r, c, false);
    var p := PageOf(r.vaddr);
    var t := FifoAccess(s, r).value;
    var used := FreeFrame(s.pager.coremap);
    if EntryOf(s.pager, p).valid {
      assert t.pager.coremap == s.pager.coremap;
    } else {
      var f := EntryOf(t.pager, p).frame;
      FramesGrow(s.pager.coremap, f, p);
      if used == n {
        RotateRound(f, n);
      } else if used + 1 == n {
        FillRound(n);
      } else {
        FillOrder(used);
      }
    }
  }

  /** On every trace: whenever all frames are in use, the frame FIFO's hand takes next is the one
      whose page has been resident longest, and the others follow in load order. */
  lemma {:induction false} HandIsOldest(memsize: nat, swapsize: nat, refs: seq<Ref>)
    requires memsize > 0 && FifoRun(memsize, swapsize, refs).Some?
    ensures InLoadOrder(FifoRun(memsize, swapsize, refs).value)
    ensures var s := FifoRun(memsize, swapsize, refs).value;
      FreeFrame(s.pager.coremap) == memsize ==> s.loaded[0] == NextVictim(s.start, memsize)
  {
    if refs == [] {
      FreeFrameIs(Start(memsize, swapsize).coremap, 0);
    } else {
      HandIsOldest(memsize, swapsize, refs[..|refs| - 1]);
      AccessKeepsLoadOrder(FifoRun(memsize, swapsize, refs[..|refs| - 1]).value, refs[|refs| - 1]);
    }
  }
}
