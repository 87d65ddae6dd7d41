/** The running simulator: page directory, page table entries shared by pointer with the coremap,
    simulated memory, swap file and policy, mutated step by step.  Every method is tied to the
    function of PagerModel or Policies that it carries out. */
module Simulator {
  import opened Words
  import opened Options
  import opened PagerModel
  import opened LeastRecentlyUsed
  import opened LruCompletes
  import opened Policies
  import opened FifoOrder
  import opened PolicyRuns
  import opened FlagWords
  import opened Bitmaps
  import opened LruList
  import opened Counting

  const PTRS: nat := 4096                 // PTRS_PER_PGDIR and PTRS_PER_PGTBL
  const PGDIR_SPAN: nat := 0x100_0000     // 1 << PGDIR_SHIFT
  const ADDRESS_LIMIT: nat := 0x10_0000_0000

  datatype Algorithm = FIFO | CLOCK | LRU

  /** `pgtbl_entry_t`. */
  class Pte {
    var word: nat
    var swapOff: int

    constructor ()
      ensures word == 0 && swapOff == INVALID_SWAP
    {
      word, swapOff := 0, INVALID_SWAP;
    }
  }

  /** `init_second_level`. */
  method InitSecondLevel() returns (t: seq<Pte>)
    ensures |t| == PTRS && fresh(t)
    ensures forall i, j :: 0 <= i < j < PTRS ==> t[i] != t[j]
    ensures forall i :: 0 <= i < PTRS ==> t[i].word == 0 && t[i].swapOff == INVALID_SWAP
  {
    t := [];
    while |t| < PTRS
      invariant |t| <= PTRS && fresh(t)
      invariant forall i, j :: 0 <= i < j < |t| ==> t[i] != t[j]
      invariant forall i :: 0 <= i < |t| ==> t[i].word == 0 && t[i].swapOff == INVALID_SWAP
    {
      var e := new Pte();
      t := t + [e];
    }
  }

  lemma PageIndices(vaddr: nat)
    requires vaddr < ADDRESS_LIMIT
    ensures vaddr / PGDIR_SPAN < PTRS
    ensures PageOf(vaddr) / PTRS == vaddr / PGDIR_SPAN
    ensures PageOf(vaddr) == vaddr / PGDIR_SPAN * PTRS + PageOf(vaddr) % PTRS
  {
  }

  predicate TableOf(p: nat, d: nat) {
    p / PTRS == d
  }

  /** The page directory holds whole tables, and they hold the entries, no two pages sharing one. */
  ghost predicate Directory(pgdir: seq<seq<Pte>>, table: map<nat, Pte>) {
    && |pgdir| == PTRS
    && (forall d :: 0 <= d < PTRS ==> pgdir[d] == [] || |pgdir[d]| == PTRS)
    && (forall p: nat :: p in table <==> p < PTRS * PTRS && pgdir[p / PTRS] != [])
    && (forall p :: p in table ==> |pgdir[p / PTRS]| == PTRS && pgdir[p / PTRS][p % PTRS] == table[p])
    && Unshared(table)
  }

  ghost predicate Unshared(table: map<nat, Pte>) {
    forall p, q :: p in table && q in table && p != q ==> table[p] != table[q]
  }

  /** The entries of a new second-level table. */
  ghost function Added(d: nat, t: seq<Pte>): map<nat, Pte>
    requires |t| == PTRS
  {
    map p: nat | p < PTRS * PTRS && TableOf(p, d) :: t[p % PTRS]
  }

  lemma DirectoryGrows(pgdir: seq<seq<Pte>>, table: map<nat, Pte>, d: nat, t: seq<Pte>)
    requires Directory(pgdir, table) && d < PTRS && pgdir[d] == [] && |t| == PTRS
    requires forall i, j :: 0 <= i < j < PTRS ==> t[i] != t[j]
    requires forall p, i :: p in table && 0 <= i < PTRS ==> table[p] != t[i]
    ensures Directory(pgdir[d := t], table + Added(d, t))
  {
    var after := table + Added(d, t);
    forall p: nat ensures p in after <==> p < PTRS * PTRS && pgdir[d := t][p / PTRS] != [] {
      if p < PTRS * PTRS && TableOf(p, d) { }
    }
    forall p, q | p in after && q in after && p != q ensures after[p] != after[q] {
      if p in Added(d, t) && q in Added(d, t) { assert p % PTRS != q % PTRS; }
    }
  }

  function Repeated<T>(n: nat, x: T): (s: seq<T>)
    ensures |s| == n && forall i :: 0 <= i < n ==> s[i] == x
  {
    seq(n, _ => x)
  }

  method Filled<T>(n: nat, x: T) returns (a: array<T>)
    ensures fresh(a) && a.Length == n && a[..] == Repeated(n, x)
  {
    a := new T[n](_ => x);
    assert a[..] == Repeated(n, x);
  }

  function InitialPolicy(algorithm: Algorithm): Policy {
    match algorithm
    case FIFO => Fifo(-1)
    case CLOCK => Clock(0)
    case LRU => Lru([])
  }

  /** The run from there is the one that the results on FIFO order, the clock's bits and the LRU stack are
      about. */
  lemma {:induction false} InitialRuns(memsize: nat, swapsize: nat, refs: seq<Ref>)
    requires memsize > 0
    ensures PolicyRun(InitialPolicy(FIFO), memsize, swapsize, refs) ==
      match FifoRun(memsize, swapsize, refs) case None => None case Some(s) => Some((Fifo(s.start), s.pager))
    ensures PolicyRun(InitialPolicy(CLOCK), memsize, swapsize, refs) == PolicyRun(Clock(0), memsize, swapsize, refs)
    ensures PolicyRun(InitialPolicy(LRU), memsize, swapsize, refs) ==
      match LruRun(memsize, swapsize, refs) case None => None case Some(s) => Some((Lru(s.order), s.pager))
  {
    LruRunIsPolicyRun(memsize, swapsize, refs);
    if refs != [] {
      InitialRuns(memsize, swapsize, refs[..|refs| - 1]);
      if FifoRun(memsize, swapsize, refs[..|refs| - 1]).Some? {
        StaysFifo(FifoRun(memsize, swapsize, refs[..|refs| - 1]).value, refs[|refs| - 1]);
      }
    }
  }

  lemma StaysFifo(s: FifoPager, r: Ref)
    requires Ok(s.pager) && |s.pager.coremap| > 0 && PolicyOk(Fifo(s.start), |s.pager.coremap|)
    ensures PolicyAccess(Fifo(s.start), s.pager, r) ==
      match FifoAccess(s, r) case None => None case Some(t) => Some((Fifo(t.start), t.pager))
  {
    hide Access;
  }

  /** The frames the clock has swept after k steps. */
  ghost function Behind(hand: nat, k: nat, n: nat): set<nat>
    requires hand < n
  {
    set g: nat | g < n && Distance(hand, g, n) < k
  }

  /** The state after the clock has swept k frames, one after the other. */
  ghost function SweptAway(s: Pager, hand: nat, k: nat): (t: Pager)
    requires hand < |s.coremap| && k <= |s.coremap|
    ensures t.coremap == s.coremap
  {
    if k == 0 then s else ClearRefs(SweptAway(s, hand, k - 1), {Place(hand, k - 1, |s.coremap|)})
  }

  lemma {:induction false} SweptAwayIs(s: Pager, hand: nat, k: nat)
    requires hand < |s.coremap| && k <= |s.coremap|
    ensures SweptAway(s, hand, k) == ClearRefs(s, Behind(hand, k, |s.coremap|))
  {
    var n := |s.coremap|;
    if k == 0 {
      assert ClearRefs(s, Behind(hand, 0, n)).entries == s.entries;
    } else {
      SweptAwayIs(s, hand, k - 1);
      PlaceDistance(hand, k - 1, n);
      assert Behind(hand, k, n) == Behind(hand, k - 1, n) + {Place(hand, k - 1, n)};
      ClearRefsTwice(s, Behind(hand, k - 1, n), {Place(hand, k - 1, n)});
    }
  }

  lemma SweepStarts(s: Pager, hand: nat)
    requires hand < |s.coremap|
    ensures SweptAway(s, hand, 0) == s && Place(hand, 0, |s.coremap|) == hand
  {
  }

  lemma ClearRefsTwice(s: Pager, a: set<nat>, b: set<nat>)
    ensures ClearRefs(ClearRefs(s, a), b) == ClearRefs(s, a + b)
  {
    assert ClearRefs(ClearRefs(s, a), b).entries == ClearRefs(s, a + b).entries;
  }

  /** What the clock finds and does after k steps: the page under the hand has its bit unless the
      hand has been there before, and it is the only one to lose it. */
  ghost predicate SweepStep(s: Pager, hand: nat, k: nat)
    requires hand < |s.coremap| && k <= |s.coremap|
  {
    var f := Place(hand, k, |s.coremap|);
    var t := SweptAway(s, hand, k);
    && s.coremap[f].Some? && s.coremap[f].value in t.entries
    && t.entries[s.coremap[f].value].ref == (RefBits(s)[f] && k < |s.coremap|)
    && (k < |s.coremap| ==> SweptAway(s, hand, k + 1) == Unreferenced(t, s.coremap[f].value))
  }

  ghost function Unreferenced(s: Pager, p: nat): Pager
    requires p in s.entries
  {
    s.(entries := s.entries[p := s.entries[p].(ref := false)])
  }

  lemma SweepSteps(s: Pager, hand: nat, k: nat)
    requires Ok(s) && hand < |s.coremap| && k <= |s.coremap| && FreeFrame(s.coremap) == |s.coremap|
    ensures SweepStep(s, hand, k)
  {
    SweptAwayIs(s, hand, k);
    ClearRefsOk(s, Behind(hand, k, |s.coremap|));
    SweptBit(s, hand, k);
    if k < |s.coremap| { ClearOne(SweptAway(s, hand, k), Place(hand, k, |s.coremap|)); }
  }

  lemma SweptBit(s: Pager, hand: nat, k: nat)
    requires Ok(s) && hand < |s.coremap| && k <= |s.coremap|
    requires var f := Place(hand, k, |s.coremap|); s.coremap[f].Some?
    ensures var f := Place(hand, k, |s.coremap|); var t := ClearRefs(s, Behind(hand, k, |s.coremap|));
      && s.coremap[f].value in t.entries
      && t.entries[s.coremap[f].value].ref == (RefBits(s)[f] && k < |s.coremap|)
  {
    var n := |s.coremap|;
    var f := Place(hand, k, n);
    if k < n { PlaceDistance(hand, k, n); }
    assert f in Behind(hand, k, n) <==> k == n;
    assert RefBits(s)[f] == s.entries[s.coremap[f].value].ref;
  }

  lemma ClearOne(s: Pager, f: nat)
    requires Ok(s) && f < |s.coremap| && s.coremap[f].Some?
    ensures var p := s.coremap[f].value;
      p in s.entries && ClearRefs(s, {f}) == Unreferenced(s, p)
  {
    var p := s.coremap[f].value;
    forall q | q in s.entries ensures ClearRefs(s, {f}).entries[q] == s.entries[p := s.entries[p].(ref := false)][q] {
      assert EntryOk(s, q);
    }
    assert ClearRefs(s, {f}).entries == s.entries[p := s.entries[p].(ref := false)];
  }

  predicate RecentAt(s: Pager, hand: nat, i: nat)
    requires hand < |s.coremap|
  {
    i < |s.coremap| && RefBits(s)[Place(hand, i, |s.coremap|)]
  }

  lemma NextPlace(hand: nat, k: nat, n: nat)
    requires hand < n && k < n
    ensures Next(Place(hand, k, n), n) == Place(hand, k + 1, n)
  {
  }

  /** What the clock has decided when it finds a clear bit after k skips. */
  lemma ClockStops(s: Pager, hand: nat, k: nat)
    requires hand < |s.coremap| && k <= |s.coremap| && !RecentAt(s, hand, k)
    requires forall i: nat :: i < k ==> RecentAt(s, hand, i)
    ensures var n := |s.coremap|; var f := Place(hand, k, n);
      Decide(Clock(hand), s) == Some((Choice(f, Behind(hand, k, n)), Clock(f)))
  {
    var n := |s.coremap|;
    forall f | 0 <= f < n && Distance(hand, f, n) < k ensures RefBits(s)[f] {
      assert RecentAt(s, hand, Distance(hand, f, n));
    }
    ClockIsExact(RefBits(s), hand);
    FirstClearIsUnique(RefBits(s), hand, k, Skipped(RefBits(s), hand));
    assert Behind(hand, k, n) == set g: nat | g < n && Distance(hand, g, n) < k;
  }

  lemma NothingCleared(s: Pager)
    ensures ClearRefs(s, {}) == s
  {
    assert ClearRefs(s, {}).entries == s.entries;
  }

  ghost predicate CanEvict(s: Pager, f: nat) {
    && f < |s.coremap| == |s.phys| && |s.slots| == |s.used|
    && s.coremap[f].Some? && s.coremap[f].value in s.entries
    && var off := s.entries[s.coremap[f].value].swapOff;
    (off != INVALID_SWAP ==> SlotOffset(s, off))
  }

  /** An eviction changes one entry and empties one frame. */
  lemma EvictChanges(s: Pager, f: nat)
    requires CanEvict(s, f)
    ensures var p := s.coremap[f].value; var t := Evict(s, f);
      && t.coremap == s.coremap[f := None] && p in t.entries && t.entries.Keys == s.entries.Keys
      && (forall q: nat :: q != p ==> EntryOf(t, q) == EntryOf(s, q))
  {
  }

  /** What an eviction does to memory, counters and the victim's entry. */
  lemma EvictIs(s: Pager, f: nat, e: Entry)
    requires CanEvict(s, f) && e == s.entries[s.coremap[f].value]
    ensures var t := Evict(s, f); var p := s.coremap[f].value;
      && p in t.entries && t.phys == s.phys && t.hits == s.hits && t.misses == s.misses && t.refs == s.refs
      && t.errors == s.errors
      && if e.dirty then
           var (u, off) := PageOut(s, f, e.swapOff);
           && t.slots == u.slots && t.used == u.used && u.phys == s.phys
           && t.cleanEvictions == s.cleanEvictions && t.dirtyEvictions == s.dirtyEvictions + 1
           && t.entries[p] == e.(swapOff := off, onswap := true, dirty := false, valid := false)
         else
           && t.slots == s.slots && t.used == s.used && t.entries[p] == e.(valid := false)
           && t.cleanEvictions == s.cleanEvictions + 1 && t.dirtyEvictions == s.dirtyEvictions
  {
  }

  lemma WordOfFlags(e: Entry, off: int)
    ensures Word(e.(swapOff := off)) == Word(e)
  {
  }

  lemma VictimCanGo(s: Pager, c: Choice)
    requires Ok(s) && FreeFrame(s.coremap) == |s.coremap| && c.victim < |s.coremap|
    ensures CanEvict(ClearRefs(s, c.cleared), c.victim)
  {
    ClearRefsOk(s, c.cleared);
    var t := ClearRefs(s, c.cleared);
    assert EntryOk(t, t.coremap[c.victim].value);
  }

  ghost predicate CanLoad(s: Pager, f: nat, p: nat, vaddr: nat) {
    && f < |s.coremap| == |s.phys| && |s.slots| == |s.used|
    && (EntryOf(s, p).swapOff != INVALID_SWAP ==> SlotOffset(s, EntryOf(s, p).swapOff))
    && Load(s, f, p, vaddr, false).Some?
  }

  lemma LoadChanges(s: Pager, f: nat, p: nat, vaddr: nat)
    requires CanLoad(s, f, p, vaddr)
    ensures var t := Load(s, f, p, vaddr, false).value;
      && t.coremap == s.coremap[f := Some(p)] && t.entries.Keys == s.entries.Keys + {p}
      && (forall q: nat :: q != p ==> EntryOf(t, q) == EntryOf(s, q))
  {
  }

  lemma MissLoads(s: Pager, vaddr: nat, c: Choice)
    requires Ok(s) && c.victim < |s.coremap| && !EntryOf(s, PageOf(vaddr)).valid
    requires PagerModel.Miss(s, vaddr, c, false).Some?
    ensures var (m, f) := MakeRoom(s, c); var p := PageOf(vaddr);
      CanLoad(m, f, p, vaddr) && PagerModel.Miss(s, vaddr, c, false) == Load(m, f, p, vaddr, false)
  {
    MakeRoomOk(s, c);
  }

  /** The policy has a frame to offer and the page can be had. */
  predicate CanAccess(policy: Policy, s: Pager, r: Ref)
    requires Ok(s) && |s.coremap| > 0 && PolicyOk(policy, |s.coremap|)
  {
    Chosen(policy, s, r).Some? && Resident(s, r.vaddr, Chosen(policy, s, r).value.0, false).Some?
  }

  /** A reference under a policy: the choice, the state in which the page is resident, the touch. */
  lemma AccessParts(policy: Policy, s: Pager, r: Ref)
    requires Ok(s) && |s.coremap| > 0 && PolicyOk(policy, |s.coremap|) && PolicyAccess(policy, s, r).Some?
    ensures CanAccess(policy, s, r)
    ensures var (c, after) := Chosen(policy, s, r).value; var t := Resident(s, r.vaddr, c, false).value;
      var p := PageOf(r.vaddr);
      && p in t.entries && t.entries[p].valid && t.entries[p].frame < |t.phys|
      && |t.phys| == |t.coremap| == |s.coremap| && PolicyOk(after, |s.coremap|)
      && Refer(after, t.entries[p].frame).Some?
      && PolicyAccess(policy, s, r) == Some((Refer(after, t.entries[p].frame).value, Touch(t, r)))
  {
    var c := Chosen(policy, s, r).value.0;
    ResidentOk(s, r.vaddr, c, false);
  }

  class Sim {
    const memsize: nat
    const pgdir: array<seq<Pte>>
    const inUse: array<bool>
    const pte: array<Pte?>
    const phys: array<Page>
    const swapmap: Bitmap
    const swapfile: array<Page>
    const algorithm: Algorithm
    const lru: List
    var start: int
    var hand: nat
    var hits: nat
    var misses: nat
    var refs: nat
    var cleanEvictions: nat
    var dirtyEvictions: nat
    var errors: nat

    /** The entry of every page whose second-level table exists. */
    ghost var table: map<nat, Pte>

    ghost predicate Shapes() {
      && pgdir.Length == PTRS && memsize > 0
      && inUse.Length == memsize && pte.Length == memsize && phys.Length == memsize
      && swapfile.Length == swapmap.nbits && phys != swapfile
    }

    ghost predicate TableOk()
      reads this`table, pgdir
    {
      Directory(pgdir[..], table)
    }

    ghost predicate EntriesMatch(s: Pager)
      reads this`table, table.Values
    {
      && s.entries.Keys <= table.Keys
      && (forall p :: p in table ==> table[p].word == Word(EntryOf(s, p)) && table[p].swapOff == EntryOf(s, p).swapOff)
    }

    /** The coremap agrees with the model, except at the frame that is just changing hands. */
    ghost predicate CoremapMatch(s: Pager, hole: int)
      reads this`table, inUse, pte
      requires Shapes()
    {
      && |s.coremap| == memsize
      && (forall f :: 0 <= f < memsize && f != hole ==>
            && (inUse[f] <==> s.coremap[f].Some?)
            && (inUse[f] ==> s.coremap[f].value in table && pte[f] == table[s.coremap[f].value]))
    }

    ghost predicate MemoryMatch(s: Pager)
      reads phys, swapmap.v, swapfile
    {
      && swapmap.Valid()
      && phys[..] == s.phys && swapfile[..] == s.slots && swapmap.Used() == s.used
    }

    ghost predicate CountersMatch(s: Pager)
      reads this`hits, this`misses, this`refs, this`cleanEvictions, this`dirtyEvictions, this`errors
    {
      && hits == s.hits && misses == s.misses && refs == s.refs
      && cleanEvictions == s.cleanEvictions && dirtyEvictions == s.dirtyEvictions && errors == s.errors
    }

    /** The policy's state: FIFO's `start`, the clock's `circular_hand` or the LRU list. */
    ghost function PolicyNow(): Policy
      reads this`start, this`hand, lru, lru.nodes
    {
      match algorithm
      case FIFO => Fifo(start)
      case CLOCK => Clock(hand)
      case LRU => Lru(lru.Order())
    }

    ghost predicate ListOk()
      reads lru, lru.nodes
    {
      algorithm == LRU ==> lru.Valid() && Distinct(lru.Order())
    }

    /** The set-up in `main` with one of the policies' init functions. */
    constructor (memsize: nat, swapsize: nat, algorithm: Algorithm)
      requires memsize > 0
      ensures this.memsize == memsize && this.algorithm == algorithm && Shapes() && swapfile.Length == swapsize
      ensures lru.Valid() && lru.Order() == [] && PolicyNow() == InitialPolicy(algorithm)
      ensures Blank()
    {
      this.memsize, this.algorithm := memsize, algorithm;
      var directory := Filled(PTRS, []);
      var flags := Filled(memsize, false);
      var ptes := Filled(memsize, null);
      var memory := Filled(memsize, Page(0, 0));
      var file := Filled(swapsize, Page(0, 0));
      pgdir, inUse, pte, phys, swapfile := directory, flags, ptes, memory, file;
      swapmap := new Bitmap(swapsize);
      lru := new List();
      start, hand := if algorithm == FIFO then -1 else 0, 0;
      hits, misses, refs, cleanEvictions, dirtyEvictions, errors := 0, 0, 0, 0, 0, 0;
      table := map[];
    }

    /** Nothing has been touched yet. */
    ghost predicate Blank()
      reads this, pgdir, inUse, phys, swapfile, swapmap.v
    {
      && table == map[]
      && pgdir[..] == Repeated(pgdir.Length, []) && inUse[..] == Repeated(inUse.Length, false)
      && phys[..] == Repeated(phys.Length, Page(0, 0)) && swapfile[..] == Repeated(swapfile.Length, Page(0, 0))
      && swapmap.Valid() && swapmap.Used() == seq(swapmap.nbits, _ => false)
      && hits == 0 && misses == 0 && refs == 0 && cleanEvictions == 0 && dirtyEvictions == 0 && errors == 0
    }

    lemma BlankIsStart()
      requires Shapes() && Blank() && lru.Valid() && lru.Order() == [] && PolicyNow() == InitialPolicy(algorithm)
      ensures TableOk() && ListOk() && PolicyOk(PolicyNow(), memsize)
      ensures var s := PagerModel.Start(memsize, swapfile.Length);
        EntriesMatch(s) && CoremapMatch(s, -1) && MemoryMatch(s) && CountersMatch(s)
    {
      var s := PagerModel.Start(memsize, swapfile.Length);
      assert phys[..] == s.phys && swapfile[..] == s.slots && swapmap.Used() == s.used;
      assert pgdir[..] == seq(PTRS, _ => []);
    }

    /** A second-level table is created for directory slot d. */
    method AddTable(d: nat, ghost s: Pager)
      requires TableOk() && d < pgdir.Length && pgdir[d] == [] && EntriesMatch(s)
      modifies this`table, pgdir
      ensures TableOk() && EntriesMatch(s) && pgdir[d] != []
      ensures forall p :: p in old(table) ==> p in table && table[p] == old(table[p])
      ensures forall q :: q in table.Values ==> q in old(table.Values) || fresh(q)
    {
      var t := InitSecondLevel();
      ghost var before := table;
      assert forall p :: p in before ==> before[p] in before.Values;
      DirectoryGrows(pgdir[..], table, d, t);
      pgdir[d] := t;
      table := before + Added(d, t);
      forall p | p in table ensures table[p].word == Word(EntryOf(s, p)) && table[p].swapOff == EntryOf(s, p).swapOff {
        if p in Added(d, t) { assert p !in before && EntryOf(s, p) == FRESH; }
      }
    }

    /** The first half of `find_physpage`: the entry of the page, its second-level table created if
        it is not there yet. */
    method Lookup(vaddr: nat, ghost s: Pager) returns (p: Pte)
      requires Shapes() && TableOk() && EntriesMatch(s) && CoremapMatch(s, -1) && vaddr < ADDRESS_LIMIT
      modifies this`table, pgdir
      ensures TableOk() && EntriesMatch(s) && CoremapMatch(s, -1)
      ensures PageOf(vaddr) in table && table[PageOf(vaddr)] == p
      ensures forall q :: q in table.Values ==> q in old(table.Values) || fresh(q)
    {
      var idx := vaddr / PGDIR_SPAN;
      PageIndices(vaddr);
      if pgdir[idx] == [] {
        AddTable(idx, s);
      }
      p := pgdir[idx][vaddr / PAGE_SIZE % PTRS];
    }

    /** `swap_pageout`. */
    method PageOut(frame: nat, off: int, ghost s: Pager) returns (r: int)
      requires Shapes() && MemoryMatch(s) && frame < memsize
      requires off != INVALID_SWAP ==> SlotOffset(s, off)
      modifies swapmap.v, swapfile
      ensures MemoryMatch(PagerModel.PageOut(s, frame, off).0)
      ensures r == PagerModel.PageOut(s, frame, off).1
    {
      var slot := 0;
      if off == INVALID_SWAP {
        var ok, index := swapmap.Alloc();
        if !ok {
          r := INVALID_SWAP;
          return;
        }
        slot := index;
      } else {
        slot := off / SIMPAGESIZE;
      }
      swapfile[slot] := phys[frame];
      r := slot * SIMPAGESIZE;
    }

    /** `swap_pagein`; its assertion is the first precondition. */
    method PageIn(frame: nat, off: int, ghost s: Pager)
      requires off != INVALID_SWAP
      requires Shapes() && MemoryMatch(s) && frame < memsize && SlotOffset(s, off)
      modifies phys
      ensures MemoryMatch(s.(phys := s.phys[frame := s.slots[off / SIMPAGESIZE]]))
    {
      phys[frame] := swapfile[off / SIMPAGESIZE];
    }

    /** `init_frame`. */
    method InitFrame(frame: nat, vaddr: nat, ghost s: Pager)
      requires Shapes() && MemoryMatch(s) && frame < memsize
      modifies phys
      ensures MemoryMatch(s.(phys := s.phys[frame := Page(0, vaddr)]))
    {
      phys[frame] := Page(0, vaddr);
    }

    /** The tables agree with the model and the policy's state is usable. */
    ghost predicate Ready(s: Pager)
      reads this`table, table.Values, inUse, pte, lru, lru.nodes, this`start, this`hand
      requires Shapes() && |s.coremap| == memsize
    {
      && EntriesMatch(s) && CoremapMatch(s, -1) && Unshared(table)
      && ListOk() && PolicyOk(PolicyNow(), memsize)
    }

    /** `fifo_evict`. */
    method FifoEvict(ghost s: Pager) returns (idx: nat)
      requires algorithm == FIFO && Shapes() && |s.coremap| == memsize && Ready(s)
      modifies this`start
      ensures Decide(old(PolicyNow()), s) == Some((Choice(idx, {}), PolicyNow()))
      ensures Ready(s)
    {
      if start >= 0 {
        NextIsModulo(start, memsize);
      } else {
        ModuloSmall(0, memsize);
      }
      start := (start + 1) % memsize;
      idx := start;
    }

    /** The test in `clock_evict`: whether the page in the frame has its reference bit, which it
        then loses. */
    method TestAndClear(frame: nat, ghost s: Pager, ghost from: nat, ghost k: nat) returns (recent: bool)
      requires Shapes() && Unshared(table) && CoremapMatch(s, -1)
      requires from < memsize && k <= memsize && frame == Place(from, k, memsize)
      requires SweepStep(s, from, k) && EntriesMatch(SweptAway(s, from, k))
      modifies table.Values
      ensures table == old(table) && start == old(start) && CoremapMatch(s, -1)
      ensures recent <==> RecentAt(s, from, k)
      ensures EntriesMatch(SweptAway(s, from, if recent then k + 1 else k))
    {
      var e := pte[frame];
      ghost var t := SweptAway(s, from, k);
      ghost var p := s.coremap[frame].value;
      FlagTests(t.entries[p]);
      ClearFlags(t.entries[p]);
      recent := And(e.word, PG_REF) == PG_REF;
      if recent {
        e.word := AndNot(e.word, PG_REF);
        assert EntriesMatch(Unreferenced(t, p));
      }
    }

    /** `clock_evict` has skipped k frames. */
    ghost predicate Scanning(s: Pager, from: nat, k: nat)
      reads this`start, this`table, table.Values, inUse, pte
    {
      && Shapes() && Unshared(table) && CoremapMatch(s, -1)
      && from < memsize && k <= memsize && start == Place(from, k, memsize) && start < memsize
      && EntriesMatch(SweptAway(s, from, k))
      && (forall i: nat :: i < k ==> RecentAt(s, from, i))
    }

    /** One turn of the loop: whether it goes on. */
    method Inspect(ghost s: Pager, ghost from: nat, ghost k: nat) returns (recent: bool)
      requires Scanning(s, from, k) && SweepStep(s, from, k)
      modifies this`start, table.Values
      ensures recent ==> k < memsize && Scanning(s, from, k + 1)
      ensures !recent ==> Scanning(s, from, k) && !RecentAt(s, from, k)
      ensures table == old(table)
    {
      hide Word, SweptAway, Place, RefBits, Unreferenced;
      recent := TestAndClear(start, s, from, k);
      if recent {
        NextPlace(from, k, memsize);
        NextIsModulo(start, memsize);
        start := (start + 1) % memsize;
      }
    }

    /** The loop of `clock_evict`, up to the frame it stops at after k skips. */
    method Scan(ghost s: Pager, ghost from: nat) returns (ghost k: nat)
      requires hand == from && Scanning(s, from, 0)
      requires forall i: nat :: i <= memsize ==> SweepStep(s, from, i)
      modifies this`start, table.Values
      ensures Scanning(s, from, k) && !RecentAt(s, from, k)
    {
      k := 0;
      while start < memsize + 1
        invariant start < memsize && Scanning(s, from, k) && table == old(table)
        decreases memsize - k
      {
        var recent := Inspect(s, from, k);
        if !recent {
          return;
        }
        k := k + 1;
      }
      assert false;
    }

    /** `clock_evict` up to the last assignment: what it has decided and which bits it has cleared. */
    method Sweep(ghost s: Pager) returns (ghost cleared: set<nat>)
      requires Shapes() && |s.coremap| == memsize && Unshared(table) && EntriesMatch(s) && CoremapMatch(s, -1)
      requires Ok(s) && FreeFrame(s.coremap) == memsize && hand < memsize
      modifies this`start, table.Values
      ensures start >= 0 && start < memsize && Decide(Clock(hand), s) == Some((Choice(start, cleared), Clock(start)))
      ensures EntriesMatch(ClearRefs(s, cleared)) && CoremapMatch(s, -1) && table == old(table)
    {
      hide Word, SweptAway, Place, RefBits, Behind, Ok, Decide;
      SweepStarts(s, hand);
      forall i: nat | i <= memsize ensures SweepStep(s, hand, i) { SweepSteps(s, hand, i); }
      start := hand;
      ghost var k := Scan(s, hand);
      ClockStops(s, hand, k);
      SweptAwayIs(s, hand, k);
      cleared := Behind(hand, k, memsize);
    }

    /** `clock_evict`. */
    method ClockEvict(ghost s: Pager) returns (victim: nat, ghost c: Choice)
      requires algorithm == CLOCK && Shapes() && |s.coremap| == memsize && Ready(s)
      requires Ok(s) && FreeFrame(s.coremap) == memsize
      modifies this`start, this`hand, table.Values
      ensures Decide(old(PolicyNow()), s) == Some((c, PolicyNow())) && PolicyOk(PolicyNow(), memsize)
      ensures victim == c.victim && Ready(ClearRefs(s, c.cleared)) && table == old(table)
    {
      hide Word, Ok, Decide, EntriesMatch;
      ghost var cleared := Sweep(s);
      hand := start;
      victim := hand;
      c := Choice(victim, cleared);
    }

    /** `lru_evict`; its null dereference is the excluded case. */
    method LruEvict(ghost s: Pager) returns (victim: nat)
      requires algorithm == LRU && Shapes() && |s.coremap| == memsize && Ready(s)
      requires Decide(PolicyNow(), s).Some?
      modifies lru, lru.nodes
      ensures Decide(old(PolicyNow()), s) == Some((Choice(victim, {}), PolicyNow()))
      ensures Ready(s)
      ensures forall n :: n in lru.nodes ==> n in old(lru.nodes)
    {
      ghost var order := lru.Order();
      victim := lru.Evict();
      assert forall f :: f in order[1..] ==> f in order;
    }

    /** `evict_fcn`. */
    method EvictFcn(ghost s: Pager) returns (frame: nat, ghost c: Choice)
      requires Shapes() && |s.coremap| == memsize && Ready(s)
      requires Ok(s) && FreeFrame(s.coremap) == memsize && Decide(PolicyNow(), s).Some?
      modifies this`start, this`hand, table.Values, lru, lru.nodes
      ensures Decide(old(PolicyNow()), s) == Some((c, PolicyNow())) && frame == c.victim
      ensures Ready(ClearRefs(s, c.cleared)) && table == old(table)
      ensures forall n :: n in lru.nodes ==> n in old(lru.nodes)
    {
      hide Word, RefBits, Ready, Decide, ClearRefs, Ok;
      NothingCleared(s);
      match algorithm
      case FIFO =>
        frame := FifoEvict(s);
        c := Choice(frame, {});
      case CLOCK =>
        frame, c := ClockEvict(s);
      case LRU =>
        frame := LruEvict(s);
        c := Choice(frame, {});
    }

    /** The dirty branch of `allocate_frame`: the victim's page goes to swap. */
    method PageOutVictim(frame: nat, victim: Pte, ghost s: Pager, ghost e: Entry)
      requires Shapes() && MemoryMatch(s) && frame < memsize
      requires victim.word == Word(e) && victim.swapOff == e.swapOff
      requires e.swapOff != INVALID_SWAP ==> SlotOffset(s, e.swapOff)
      modifies victim, swapmap.v, swapfile, this`dirtyEvictions
      ensures MemoryMatch(PagerModel.PageOut(s, frame, e.swapOff).0)
      ensures victim.word == Word(e.(onswap := true)) && victim.swapOff == PagerModel.PageOut(s, frame, e.swapOff).1
      ensures dirtyEvictions == old(dirtyEvictions) + 1
    {
      var off := PageOut(frame, victim.swapOff, s);
      victim.swapOff := off;
      SetFlags(e);
      victim.word := Or(victim.word, PG_ONSWAP);
      dirtyEvictions := dirtyEvictions + 1;
    }

    /** The victim in `allocate_frame`: paged out if dirty, then neither dirty nor valid. */
    method Retire(frame: nat, victim: Pte, ghost s: Pager, ghost e: Entry)
      requires Shapes() && MemoryMatch(s) && CountersMatch(s) && CanEvict(s, frame)
      requires e == s.entries[s.coremap[frame].value] && victim.word == Word(e) && victim.swapOff == e.swapOff
      modifies victim, swapmap.v, swapfile, this`cleanEvictions, this`dirtyEvictions
      ensures MemoryMatch(Evict(s, frame)) && CountersMatch(Evict(s, frame))
      ensures var e' := Evict(s, frame).entries[s.coremap[frame].value];
        victim.word == Word(e') && victim.swapOff == e'.swapOff
    {
      hide Word, And, AndNot, PagerModel.PageOut, Evict;
      EvictIs(s, frame, e);
      FlagTests(e);
      ghost var f := e;
      if And(victim.word, PG_DIRTY) == PG_DIRTY {
        PageOutVictim(frame, victim, s, e);
        f := e.(onswap := true);
        WordOfFlags(f.(dirty := false, valid := false), victim.swapOff);
      } else {
        cleanEvictions := cleanEvictions + 1;
      }
      ClearFlags(f);
      victim.word := AndNot(victim.word, PG_DIRTY);
      ClearFlags(f.(dirty := false));
      victim.word := AndNot(victim.word, PG_VALID);
    }

    /** The eviction in `allocate_frame`. */
    method EvictVictim(frame: nat, ghost s: Pager)
      requires Shapes() && Unshared(table) && EntriesMatch(s) && CoremapMatch(s, -1) && MemoryMatch(s)
      requires CountersMatch(s)
      requires CanEvict(s, frame) && ListOk()
      modifies table.Values, swapmap.v, swapfile, this`cleanEvictions, this`dirtyEvictions
      ensures ListOk() && PolicyNow() == old(PolicyNow()) && lru.nodes == old(lru.nodes)
      ensures EntriesMatch(Evict(s, frame)) && CoremapMatch(Evict(s, frame), frame)
      ensures MemoryMatch(Evict(s, frame)) && CountersMatch(Evict(s, frame)) && table == old(table)
    {
      hide Word, Evict, PagerModel.PageOut;
      ghost var p := s.coremap[frame].value;
      EvictChanges(s, frame);
      Retire(frame, pte[frame], s, s.entries[p]);
    }

    /** The loop of `allocate_frame`: the lowest frame not in use, or -1. */
    method FindFree(ghost s: Pager) returns (frame: int)
      requires Shapes() && CoremapMatch(s, -1)
      ensures if FreeFrame(s.coremap) < memsize then frame == FreeFrame(s.coremap) else frame == -1
    {
      frame := -1;
      for i := 0 to memsize
        invariant forall j :: 0 <= j < i ==> s.coremap[j].Some?
      {
        if !inUse[i] {
          frame := i;
          return;
        }
      }
    }

    /** `allocate_frame` when no frame is free. */
    method MakeFree(ghost s: Pager) returns (frame: nat, ghost c: Choice)
      requires Shapes() && |s.coremap| == memsize && Ready(s) && MemoryMatch(s) && CountersMatch(s)
      requires Ok(s) && FreeFrame(s.coremap) == memsize && Decide(PolicyNow(), s).Some?
      modifies this`start, this`hand, table.Values, lru, lru.nodes
      modifies swapmap.v, swapfile, this`cleanEvictions, this`dirtyEvictions
      ensures Decide(old(PolicyNow()), s) == Some((c, PolicyNow())) && frame == c.victim < memsize
      ensures CanEvict(ClearRefs(s, c.cleared), frame)
      ensures var m := Evict(ClearRefs(s, c.cleared), frame);
        EntriesMatch(m) && CoremapMatch(m, frame) && MemoryMatch(m) && CountersMatch(m)
      ensures ListOk() && table == old(table)
      ensures forall n :: n in lru.nodes ==> n in old(lru.nodes)
    {
      hide Word, Evict, Decide, Ok, EntriesMatch, SlotOffset;
      DecideOk(PolicyNow(), s);
      frame, c := EvictFcn(s);
      VictimCanGo(s, c);
      ghost var policy := PolicyNow();
      EvictVictim(frame, ClearRefs(s, c.cleared));
      assert PolicyNow() == policy;
    }

    /** `allocate_frame`: the frame is in use for p from here on. */
    method AllocateFrame(p: Pte, ghost s: Pager) returns (frame: nat, ghost c: Choice)
      requires Shapes() && |s.coremap| == memsize && Ready(s) && MemoryMatch(s) && CountersMatch(s) && Ok(s)
      requires FreeFrame(s.coremap) == memsize ==> Decide(PolicyNow(), s).Some?
      modifies this`start, this`hand, table.Values, lru, lru.nodes, inUse, pte
      modifies swapmap.v, swapfile, this`cleanEvictions, this`dirtyEvictions
      ensures c.victim < memsize && frame == MakeRoom(s, c).1 < memsize
      ensures var m := MakeRoom(s, c).0;
        EntriesMatch(m) && CoremapMatch(m, frame) && MemoryMatch(m) && CountersMatch(m)
      ensures if FreeFrame(s.coremap) == memsize then Decide(old(PolicyNow()), s) == Some((c, PolicyNow()))
              else c == Choice(0, {}) && PolicyNow() == old(PolicyNow())
      ensures inUse[frame] && pte[frame] == p
      ensures ListOk() && table == old(table)
      ensures forall n :: n in lru.nodes ==> n in old(lru.nodes)
    {
      hide Word, Evict, ClearRefs, Decide, EntriesMatch, MemoryMatch, CountersMatch, Ok;
      var free := FindFree(s);
      if free == -1 {
        frame, c := MakeFree(s);
      } else {
        frame, c := free, Choice(0, {});
        NothingCleared(s);
      }
      ghost var m := MakeRoom(s, c).0;
      assert EntriesMatch(m) && CoremapMatch(m, frame) && MemoryMatch(m) && CountersMatch(m);
      Claim(frame, p, m);
    }

    /** The end of `allocate_frame`. */
    method Claim(frame: nat, p: Pte, ghost s: Pager)
      requires Shapes() && frame < memsize && ListOk()
      requires EntriesMatch(s) && CoremapMatch(s, frame) && MemoryMatch(s) && CountersMatch(s)
      modifies inUse, pte
      ensures EntriesMatch(s) && CoremapMatch(s, frame) && MemoryMatch(s) && CountersMatch(s)
      ensures ListOk() && PolicyNow() == old(PolicyNow())
      ensures inUse[frame] && pte[frame] == p
    {
      inUse[frame] := true;
      pte[frame] := p;
    }

    /** The middle of `find_physpage`: what a frame just allocated is filled with, and the entry. */
    method Fault(frame: nat, p: Pte, vaddr: nat, ghost s: Pager, ghost q: nat)
      requires Shapes() && MemoryMatch(s) && CountersMatch(s) && frame < memsize == |s.coremap|
      requires p.word == Word(EntryOf(s, q)) && p.swapOff == EntryOf(s, q).swapOff
      requires p.swapOff != INVALID_SWAP ==> SlotOffset(s, p.swapOff)
      requires Load(s, frame, q, vaddr, false).Some?
      modifies p, phys, this`misses
      ensures var t := Load(s, frame, q, vaddr, false).value;
        && MemoryMatch(t) && CountersMatch(t)
        && p.word == Word(t.entries[q].(valid := false)) && p.swapOff == t.entries[q].swapOff
    {
      misses := misses + 1;
      ghost var e := EntryOf(s, q);
      FlagTests(e);
      if And(p.word, PG_ONSWAP) != PG_ONSWAP {
        InitFrame(frame, vaddr, s);
        e := Entry(frame, false, false, false, false, p.swapOff);
        p.word := frame * PAGE_SIZE;
        SetFlags(e);
        p.word := Or(p.word, PG_DIRTY);
      } else {
        PageIn(frame, p.swapOff, s);
        e := Entry(frame, false, false, false, false, p.swapOff);
        p.word := frame * PAGE_SIZE;
        ClearFlags(e);
        p.word := AndNot(p.word, PG_DIRTY);
        p.word := AndNot(p.word, PG_ONSWAP);
      }
    }

    /** The end of `find_physpage`: the entry is valid and referenced, and dirty after a write. */
    method MarkReferenced(p: Pte, write: bool, ghost e: Entry)
      requires p.word == Word(e)
      modifies p`word
      ensures p.word == Word(e.(valid := true, ref := true, dirty := e.dirty || write))
    {
      SetFlags(e);
      p.word := Or(p.word, PG_VALID);
      SetFlags(e.(valid := true));
      p.word := Or(p.word, PG_REF);
      if write {
        SetFlags(e.(valid := true, ref := true));
        p.word := Or(p.word, PG_DIRTY);
      }
    }

    /** `ref_fcn`. */
    method RefFcn(frame: nat)
      requires frame < memsize && ListOk() && PolicyOk(PolicyNow(), memsize) && Refer(PolicyNow(), frame).Some?
      modifies lru, lru.nodes
      ensures Refer(old(PolicyNow()), frame) == Some(PolicyNow())
      ensures ListOk() && PolicyOk(PolicyNow(), memsize)
      ensures forall n :: n in lru.nodes ==> n in old(lru.nodes) || fresh(n)
    {
      if algorithm == LRU {
        TouchedDistinct(lru.Order(), frame);
        lru.Ref(frame);
      }
    }

    /** The entries agree with the model, except page q's. */
    ghost predicate OthersMatch(s: Pager, q: nat)
      reads this`table, table.Values
    {
      && s.entries.Keys <= table.Keys
      && (forall p :: p in table && p != q ==>
            table[p].word == Word(EntryOf(s, p)) && table[p].swapOff == EntryOf(s, p).swapOff)
    }

    /** The same with the tables around it; the page's entry still lacks its valid bit afterwards. */
    method FaultIn(frame: nat, p: Pte, vaddr: nat, ghost s: Pager, ghost q: nat)
      requires Shapes() && Unshared(table) && EntriesMatch(s) && CoremapMatch(s, frame) && MemoryMatch(s)
      requires CountersMatch(s)
      requires ListOk() && frame < memsize && inUse[frame] && pte[frame] == p && q in table && table[q] == p
      requires CanLoad(s, frame, q, vaddr)
      modifies p, phys, this`misses
      ensures Loaded(Load(s, frame, q, vaddr, false).value, q)
      ensures ListOk() && PolicyNow() == old(PolicyNow())
    {
      hide Word, Load, And, Or, AndNot;
      LoadChanges(s, frame, q, vaddr);
      Fault(frame, p, vaddr, s, q);
    }

    /** Everything agrees with the model in which page q is resident, except that its valid bit may not
        be set yet. */
    ghost predicate Loaded(s: Pager, q: nat)
      reads this, table.Values, inUse, pte, phys, swapmap.v, swapfile
    {
      && Shapes() && Unshared(table)
      && OthersMatch(s, q) && CoremapMatch(s, -1) && MemoryMatch(s) && CountersMatch(s)
      && q in table && q in s.entries
      && (table[q].word == Word(s.entries[q]) || table[q].word == Word(s.entries[q].(valid := false)))
      && table[q].swapOff == s.entries[q].swapOff
    }

    /** The miss path of `find_physpage`. */
    method Miss(p: Pte, r: Ref, ghost s: Pager) returns (ghost c: Choice)
      requires Shapes() && |s.coremap| == memsize && Ready(s) && MemoryMatch(s) && CountersMatch(s) && Ok(s)
      requires PageOf(r.vaddr) in table && table[PageOf(r.vaddr)] == p && !EntryOf(s, PageOf(r.vaddr)).valid
      requires Chosen(PolicyNow(), s, r).Some?
      requires PagerModel.Miss(s, r.vaddr, Chosen(PolicyNow(), s, r).value.0, false).Some?
      modifies this`start, this`hand, table.Values, lru, lru.nodes, inUse, pte, phys
      modifies swapmap.v, swapfile, this`cleanEvictions, this`dirtyEvictions, this`misses
      ensures c.victim < memsize && Chosen(old(PolicyNow()), s, r) == Some((c, PolicyNow()))
      ensures PagerModel.Miss(s, r.vaddr, c, false).Some?
      ensures Loaded(PagerModel.Miss(s, r.vaddr, c, false).value, PageOf(r.vaddr))
      ensures ListOk() && table == old(table) && (old(TableOk()) ==> TableOk())
      ensures forall n :: n in lru.nodes ==> n in old(lru.nodes)
    {
      hide Word, Load, MakeRoom, MemoryMatch, CountersMatch;
      var frame;
      frame, c := AllocateFrame(p, s);
      MissLoads(s, r.vaddr, c);
      FaultIn(frame, p, r.vaddr, MakeRoom(s, c).0, PageOf(r.vaddr));
    }

    /** The whole simulator agrees with the model. */
    ghost predicate Matches(s: Pager)
      reads this, pgdir, table.Values, inUse, pte, phys, swapmap.v, swapfile, lru, lru.nodes
    {
      && Shapes() && TableOk() && |s.coremap| == memsize && Ready(s) && MemoryMatch(s) && CountersMatch(s)
    }

    /** `Lookup` with the simulator around it. */
    method FindEntry(vaddr: nat, ghost s: Pager) returns (p: Pte)
      requires Matches(s) && vaddr < ADDRESS_LIMIT
      modifies this`table, pgdir
      ensures Matches(s) && PolicyNow() == old(PolicyNow())
      ensures PageOf(vaddr) in table && table[PageOf(vaddr)] == p
      ensures forall q :: q in table.Values ==> q in old(table.Values) || fresh(q)
    {
      p := Lookup(vaddr, s);
    }

    /** `find_physpage` once the page is resident: the flags of its entry. */
    method Mark(p: Pte, r: Ref, ghost s: Pager)
      requires Loaded(s, PageOf(r.vaddr)) && table[PageOf(r.vaddr)] == p && ListOk() && TableOk()
      requires s.entries[PageOf(r.vaddr)].frame < memsize == |s.phys| && s.entries[PageOf(r.vaddr)].valid
      modifies p`word
      ensures TableOk() && Unshared(table) && EntriesMatch(Touch(s, r)) && CoremapMatch(Touch(s, r), -1)
      ensures MemoryMatch(s) && CountersMatch(s)
      ensures ListOk() && PolicyNow() == old(PolicyNow())
      ensures p.word / PAGE_SIZE == s.entries[PageOf(r.vaddr)].frame
    {
      hide Word, MemoryMatch, And, Or, Directory;
      ghost var e := s.entries[PageOf(r.vaddr)];
      MarkReferenced(p, r.write, if p.word == Word(e) then e else e.(valid := false));
      FlagTests(Touch(s, r).entries[PageOf(r.vaddr)]);
    }

    /** The rest of `access_mem`: the check of the recorded address and the version counter. */
    method CheckAndCount(frame: nat, r: Ref, ghost s: Pager)
      requires Shapes() && MemoryMatch(s) && CountersMatch(s) && frame < memsize
      requires PageOf(r.vaddr) in s.entries && s.entries[PageOf(r.vaddr)].frame == frame
      requires TableOk() && |s.coremap| == memsize && Ready(Touch(s, r))
      modifies phys, this`errors, this`refs
      ensures Matches(Touch(s, r)) && PolicyNow() == old(PolicyNow()) && lru.nodes == old(lru.nodes)
    {
      hide Word, EntriesMatch, Directory;
      refs := refs + 1;
      if phys[frame].tag != r.vaddr {
        errors := errors + 1;
      }
      if r.write {
        phys[frame] := phys[frame].(version := phys[frame].version + 1);
      }
    }

    /** `find_physpage` up to the flags: the page's entry, the page being resident. */
    method MakeResident(r: Ref, ghost s: Pager) returns (p: Pte, ghost c: Choice)
      requires Matches(s) && Ok(s) && r.vaddr < ADDRESS_LIMIT && CanAccess(PolicyNow(), s, r)
      modifies this`table, pgdir, this`start, this`hand, table.Values, lru, lru.nodes, inUse, pte, phys
      modifies swapmap.v, swapfile, this`cleanEvictions, this`dirtyEvictions, this`misses, this`hits
      ensures c.victim < memsize && Chosen(old(PolicyNow()), s, r) == Some((c, PolicyNow()))
      ensures Resident(s, r.vaddr, c, false).Some? && Loaded(Resident(s, r.vaddr, c, false).value, PageOf(r.vaddr))
      ensures TableOk() && ListOk() && table[PageOf(r.vaddr)] == p
      ensures forall n :: n in lru.nodes ==> n in old(lru.nodes)
      ensures forall q :: q in table.Values ==> q in old(table.Values) || fresh(q)
    {
      hide Word, MemoryMatch, CoremapMatch, Directory, Ok;
      p := FindEntry(r.vaddr, s);
      FlagTests(EntryOf(s, PageOf(r.vaddr)));
      if And(p.word, PG_VALID) != PG_VALID {
        c := Miss(p, r, s);
      } else {
        c := Choice(0, {});
        Hit(r, s);
      }
    }

    /** The hit path. */
    method Hit(r: Ref, ghost s: Pager)
      requires Matches(s) && PageOf(r.vaddr) in table && EntryOf(s, PageOf(r.vaddr)).valid
      modifies this`hits
      ensures Loaded(s.(hits := s.hits + 1), PageOf(r.vaddr)) && TableOk() && ListOk()
      ensures PolicyNow() == old(PolicyNow())
    {
      hide Word, Directory;
      hits := hits + 1;
    }

    /** `ref_fcn` with the tables around it. */
    method RefPage(frame: nat, ghost s: Pager, ghost t: Pager)
      requires Shapes() && Unshared(table) && EntriesMatch(s) && CoremapMatch(s, -1) && MemoryMatch(t)
      requires CountersMatch(t)
      requires TableOk() && frame < memsize && ListOk() && PolicyOk(PolicyNow(), memsize)
      requires Refer(PolicyNow(), frame).Some?
      modifies lru, lru.nodes
      ensures TableOk() && Ready(s) && MemoryMatch(t) && CountersMatch(t)
      ensures Refer(old(PolicyNow()), frame) == Some(PolicyNow())
      ensures forall n :: n in lru.nodes ==> n in old(lru.nodes) || fresh(n)
    {
      RefFcn(frame);
    }

    /** The second half of `access_mem`, the page being resident in the model state s. */
    method Finish(p: Pte, r: Ref, ghost s: Pager)
      requires Loaded(s, PageOf(r.vaddr)) && table[PageOf(r.vaddr)] == p && ListOk() && TableOk()
      requires s.entries[PageOf(r.vaddr)].frame < memsize == |s.phys| && s.entries[PageOf(r.vaddr)].valid
      requires PolicyOk(PolicyNow(), memsize) && Refer(PolicyNow(), s.entries[PageOf(r.vaddr)].frame).Some?
      modifies p`word, lru, lru.nodes, phys, this`errors, this`refs
      ensures Matches(Touch(s, r))
      ensures Refer(old(PolicyNow()), s.entries[PageOf(r.vaddr)].frame) == Some(PolicyNow())
      ensures forall n :: n in lru.nodes ==> n in old(lru.nodes) || fresh(n)
    {
      Mark(p, r, s);
      var frame := p.word / PAGE_SIZE;
      RefPage(frame, Touch(s, r), s);
      CheckAndCount(frame, r, s);
    }

    /** `access_mem`: one trace line carries out the model's step. */
    method AccessMem(r: Ref, ghost s: Pager) returns (ghost t: Pager)
      requires Matches(s) && Ok(s) && r.vaddr < ADDRESS_LIMIT && PolicyAccess(PolicyNow(), s, r).Some?
      modifies this, pgdir, table.Values, lru, lru.nodes, inUse, pte, phys, swapmap.v, swapfile
      ensures Matches(t) && PolicyAccess(old(PolicyNow()), s, r) == Some((PolicyNow(), t))
      ensures forall n :: n in lru.nodes ==> n in old(lru.nodes) || fresh(n)
      ensures forall q :: q in table.Values ==> q in old(table.Values) || fresh(q)
    {
      hide Word, EntriesMatch, OthersMatch, CoremapMatch, MemoryMatch, CountersMatch, Directory, Touch, Chosen, Ok;
      AccessParts(PolicyNow(), s, r);
      var p;
      ghost var c;
      p, c := MakeResident(r, s);
      assert p in table.Values;
      assert p in old(table.Values) || fresh(p);
      assert forall i :: 0 <= i < |lru.nodes| ==> lru.nodes[i] in old(lru.nodes);
      Finish(p, r, Resident(s, r.vaddr, c, false).value);
      t := Touch(Resident(s, r.vaddr, c, false).value, r);
    }

    /** `replay_trace` on a simulator just set up: it carries out the model's run, as long as that
        does not dereference a null pointer (LRU) or run out of swap. */
    method ReplayTrace(trace: seq<Ref>) returns (ghost s: Pager)
      requires Shapes() && Blank() && lru.Valid() && lru.Order() == [] && PolicyNow() == InitialPolicy(algorithm)
      requires forall i :: 0 <= i < |trace| ==> trace[i].vaddr < ADDRESS_LIMIT
      requires PolicyRun(InitialPolicy(algorithm), memsize, swapfile.Length, trace).Some?
      modifies this, pgdir, table.Values, lru, lru.nodes, inUse, pte, phys, swapmap.v, swapfile
      ensures PolicyRun(InitialPolicy(algorithm), memsize, swapfile.Length, trace) == Some((PolicyNow(), s))
      ensures Matches(s)
      ensures
        |RefPages(trace)| <= swapfile.Length && (forall i :: 0 <= i < |trace| ==> trace[i].vaddr % PAGE_SIZE == 0) ==>
        errors == 0 && hits + misses == refs == |trace|
    {
      BlankMatches();
      s := ReplayFrom(trace, PolicyNow());
      if |RefPages(trace)| <= swapfile.Length && forall i :: 0 <= i < |trace| ==> trace[i].vaddr % PAGE_SIZE == 0 {
        RunCounters(InitialPolicy(algorithm), memsize, swapfile.Length, trace);
      }
    }

    /** The loop of `replay_trace`. */
    method ReplayFrom(trace: seq<Ref>, ghost policy: Policy) returns (ghost s: Pager)
      requires Shapes() && Matches(PagerModel.Start(memsize, swapfile.Length)) && PolicyNow() == policy
      requires forall i :: 0 <= i < |trace| ==> trace[i].vaddr < ADDRESS_LIMIT
      requires PolicyRun(policy, memsize, swapfile.Length, trace).Some?
      modifies this, pgdir, table.Values, lru, lru.nodes, inUse, pte, phys, swapmap.v, swapfile
      ensures PolicyRun(policy, memsize, swapfile.Length, trace) == Some((PolicyNow(), s))
      ensures Matches(s)
    {
      s := PagerModel.Start(memsize, swapfile.Length);
      for i := 0 to |trace|
        invariant Matches(s) && PolicyRun(policy, memsize, swapfile.Length, trace[..i]) == Some((PolicyNow(), s))
        invariant forall n :: n in lru.nodes ==> n in old(lru.nodes) || fresh(n)
        invariant forall q :: q in table.Values ==> q in old(table.Values) || fresh(q)
      {
        assert forall j :: 0 <= j < |lru.nodes| ==> lru.nodes[j] in old(lru.nodes) || fresh(lru.nodes[j]);
        s := ReplayLine(trace, i, policy, s);
      }
      assert trace[..|trace|] == trace;
    }

    /** One turn of that loop. */
    method ReplayLine(trace: seq<Ref>, i: nat, ghost policy: Policy, ghost s: Pager) returns (ghost t: Pager)
      requires Matches(s) && i < |trace| && trace[i].vaddr < ADDRESS_LIMIT && PolicyOk(policy, memsize)
      requires PolicyRun(policy, memsize, swapfile.Length, trace).Some?
      requires PolicyRun(policy, memsize, swapfile.Length, trace[..i]) == Some((PolicyNow(), s))
      modifies this, pgdir, table.Values, lru, lru.nodes, inUse, pte, phys, swapmap.v, swapfile
      ensures Matches(t)
      ensures PolicyRun(policy, memsize, swapfile.Length, trace[..i + 1]) == Some((PolicyNow(), t))
      ensures forall n :: n in lru.nodes ==> n in old(lru.nodes) || fresh(n)
      ensures forall q :: q in table.Values ==> q in old(table.Values) || fresh(q)
    {
      PrefixRuns(policy, memsize, swapfile.Length, trace, i + 1);
      RunStep(policy, memsize, swapfile.Length, trace, i);
      t := AccessMem(trace[i], s);
    }

    lemma BlankMatches()
      requires Shapes() && Blank() && lru.Valid() && lru.Order() == [] && PolicyNow() == InitialPolicy(algorithm)
      ensures Matches(PagerModel.Start(memsize, swapfile.Length))
    {
      BlankIsStart();
    }
  }
}
