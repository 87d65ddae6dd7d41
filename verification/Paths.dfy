/** The quadrants a car passes through: `compute_path` and `sort_increasing_order`. */
module Paths {
  import opened Counting

  const UNUSED: int := 10
  const NONE: int := -1

  type Direction = d: nat | d < 4

  /** How far anticlockwise the exit lies from the entry quadrant:
      0 right turn, 1 straight, 2 left turn, 3 u-turn. */
  function Turn(inDir: Direction, outDir: Direction): Direction {
    (outDir + 3 - inDir) % 4
  }

  /** The rule of the road, independent of how the path is computed: a car drives anticlockwise
      from the quadrant after its entry direction, through as many quadrants as its turn needs. */
  predicate Crosses(inDir: Direction, outDir: Direction, q: int) {
    0 <= q < 4 && (q + 3 - inDir) % 4 <= Turn(inDir, outDir)
  }

  /** The quadrants from `q` on that the car crosses, in ascending order. */
  function Ascending(inDir: Direction, outDir: Direction, q: nat): (s: seq<int>)
    requires q <= 4
    ensures |s| <= 4 - q
    decreases 4 - q
  {
    if q == 4 then []
    else (if Crosses(inDir, outDir, q) then [q] else []) + Ascending(inDir, outDir, q + 1)
  }

  /** The list `compute_path` returns: the quadrants in lock order, then -1 up to four slots. */
  function PathList(inDir: Direction, outDir: Direction): (l: seq<int>)
    ensures |l| == 4
  {
    var s := Ascending(inDir, outDir, 0);
    s + seq(4 - |s|, _ => NONE)
  }

  ghost predicate StrictlyIncreasing(s: seq<int>) {
    forall i, j :: 0 <= i < j < |s| ==> s[i] < s[j]
  }

  lemma {:induction false} AscendingIsSorted(inDir: Direction, outDir: Direction, q: nat)
    requires q <= 4
    ensures StrictlyIncreasing(Ascending(inDir, outDir, q))
    ensures forall x :: x in Ascending(inDir, outDir, q) <==> q <= x && Crosses(inDir, outDir, x)
    decreases 4 - q
  {
    if q < 4 {
      AscendingIsSorted(inDir, outDir, q + 1);
      var rest := Ascending(inDir, outDir, q + 1);
      forall x | q <= x && Crosses(inDir, outDir, x) ensures x in Ascending(inDir, outDir, q) {
        if x > q { assert x in rest; }
      }
      forall i, j | 0 <= i < j < |Ascending(inDir, outDir, q)|
        ensures Ascending(inDir, outDir, q)[i] < Ascending(inDir, outDir, q)[j]
      {
        var s := Ascending(inDir, outDir, q);
        if s != rest { assert j > 0 && s[j] == rest[j - 1] && rest[j - 1] in rest; }
      }
    }
  }

  /** Quadrants in strictly increasing order, then only empty slots. */
  ghost predicate LockOrder(l: seq<int>) {
    && |l| == 4
    && (forall i :: 0 <= i < 4 ==> NONE <= l[i] < 4)
    && (forall i, j :: 0 <= i < j < 4 && l[j] != NONE ==> l[i] != NONE && l[i] < l[j])
  }

  /** What the crossing thread relies on: the list names exactly the quadrants of the rule of the
      road, in strictly increasing lock order, with all the empty slots at the end. */
  lemma PathListIsLockOrder(inDir: Direction, outDir: Direction)
    ensures LockOrder(PathList(inDir, outDir))
    ensures forall q: Direction :: q in PathList(inDir, outDir) <==> Crosses(inDir, outDir, q)
  {
    AscendingIsSorted(inDir, outDir, 0);
    var s := Ascending(inDir, outDir, 0);
    var l := PathList(inDir, outDir);
    forall q: Direction | q in l ensures Crosses(inDir, outDir, q) { assert q in s; }
    forall q: Direction | Crosses(inDir, outDir, q) ensures q in l {
      assert q in s;
      var k :| 0 <= k < |s| && s[k] == q;
      assert l[k] == q;
    }
    forall i, j | 0 <= i < j < 4 && l[j] != NONE ensures l[i] != NONE && l[i] < l[j] {
      assert j < |s| && l[i] == s[i] && l[j] == s[j];
      assert s[i] in s;
    }
    forall i | 0 <= i < 4 ensures NONE <= l[i] < 4 {
      if i < |s| { assert s[i] in s; }
    }
  }

  ghost predicate Sorted(s: seq<int>) {
    forall i, j :: 0 <= i < j < |s| ==> s[i] <= s[j]
  }

  /** The final pass of the sort: the placeholder becomes -1. */
  function Replaced(s: seq<int>): (r: seq<int>)
    ensures |r| == |s|
  {
    seq(|s|, i requires 0 <= i < |s| => if s[i] == UNUSED then NONE else s[i])
  }

  lemma {:induction false} SameLength(a: seq<int>, b: seq<int>)
    requires Permutes(a, b)
    ensures a == [] <==> b == []
  {
    if |a| > 0 { assert Count(a, a[0]) == Count(b, a[0]); }
    if |b| > 0 { assert Count(a, b[0]) == Count(b, b[0]); }
  }

  /** A collection of integers has one sorted arrangement. */
  lemma {:induction false} SortedIsUnique(a: seq<int>, b: seq<int>)
    requires Sorted(a) && Sorted(b) && Permutes(a, b)
    ensures a == b
  {
    SameLength(a, b);
    if a != [] {
      assert Count(a, a[0]) == Count(b, a[0]);
      CountIn(b, a[0]);
      CountIn(a, b[0]);
      forall x ensures Count(a[1..], x) == Count(b[1..], x) {
        assert Count(a, x) == Count(b, x);
      }
      SortedIsUnique(a[1..], b[1..]);
      assert a == [a[0]] + a[1..] && b == [b[0]] + b[1..];
    }
  }

  /** The index of the first least element of s[i..j], as the inner loop finds it. */
  function MinIndex(s: seq<int>, i: nat, j: nat): (m: nat)
    requires i < j <= |s|
    ensures i <= m < j
    decreases j
  {
    if j == i + 1 then i
    else
      var m := MinIndex(s, i, j - 1);
      if s[j - 1] < s[m] then j - 1 else m
  }

  lemma {:induction false} MinIndexIsLeast(s: seq<int>, i: nat, j: nat, k: nat)
    requires i <= k < j <= |s|
    ensures s[MinIndex(s, i, j)] <= s[k]
    decreases j
  {
    if j > i + 1 {
      if k < j - 1 { MinIndexIsLeast(s, i, j - 1, k); } else { assert k == j - 1; }
    }
  }

  function Swapped(s: seq<int>, i: nat, j: nat): (r: seq<int>)
    requires i < |s| && j < |s|
    ensures |r| == |s|
  {
    s[i := s[j]][j := s[i]]
  }

  /** The list after the outer loop has placed its i least elements. */
  function Passes(s: seq<int>, i: nat): (r: seq<int>)
    requires i <= |s|
    ensures |r| == |s|
  {
    if i == 0 then s
    else
      var r := Passes(s, i - 1);
      Swapped(r, i - 1, MinIndex(r, i - 1, |r|))
  }

  lemma SwappedCount(s: seq<int>, i: nat, j: nat, x: int)
    requires i < |s| && j < |s|
    ensures Count(Swapped(s, i, j), x) == Count(s, x)
  {
    CountUpdate(s, i, s[j], x);
    CountUpdate(s[i := s[j]], j, s[i], x);
  }

  lemma {:induction false} PassesCount(s: seq<int>, i: nat, x: int)
    requires i <= |s|
    ensures Count(Passes(s, i), x) == Count(s, x)
  {
    if i > 0 {
      var r := Passes(s, i - 1);
      PassesCount(s, i - 1, x);
      SwappedCount(r, i - 1, MinIndex(r, i - 1, |r|), x);
    }
  }

  /** After i passes the first i elements are in order and no later element is below them. */
  lemma {:induction false} PassesOrder(s: seq<int>, i: nat)
    requires i <= |s|
    ensures forall k, m :: 0 <= k < i && k < m < |s| ==> Passes(s, i)[k] <= Passes(s, i)[m]
  {
    if i > 0 {
      PassesOrder(s, i - 1);
      var r := Passes(s, i - 1);
      var p := MinIndex(r, i - 1, |r|);
      forall k, m | 0 <= k < i && k < m < |s| ensures Passes(s, i)[k] <= Passes(s, i)[m] {
        if k == i - 1 {
          MinIndexIsLeast(r, i - 1, |r|, if m == p then i - 1 else m);
        }
        assert Passes(s, i)[m] == r[if m == p then i - 1 else if m == i - 1 then p else m];
      }
    }
  }

  /** The ascending permutation of a list. */
  function SortedForm(s: seq<int>): (r: seq<int>)
    ensures |r| == |s|
  {
    if s == [] then [] else Passes(s, |s| - 1)
  }

  /** What the two loops of the sort achieve: an ascending permutation. */
  lemma SortedFormSorts(s: seq<int>)
    ensures Sorted(SortedForm(s))
    ensures Permutes(SortedForm(s), s)
  {
    if s != [] {
      PassesOrder(s, |s| - 1);
      forall x ensures Count(SortedForm(s), x) == Count(s, x) { PassesCount(s, |s| - 1, x); }
    }
  }

  /** `sort_increasing_order`: selection sort in place, then the placeholder 10 becomes -1. */
  method SortIncreasingOrder(list: array<int>)
    modifies list
    ensures list[..] == Replaced(SortedForm(old(list[..])))
  {
    var i := 0;
    while i < list.Length - 1
      invariant 0 <= i <= list.Length && (list.Length > 0 ==> i <= list.Length - 1)
      invariant list[..] == Passes(old(list[..]), i)
    {
      PlaceLeast(list, i);
      i := i + 1;
    }
    ReplacePlaceholders(list);
  }

  /** One pass of the sort: the inner loop and the swap. */
  method PlaceLeast(list: array<int>, i: nat)
    requires i < list.Length
    modifies list
    ensures list[..] == Swapped(old(list[..]), i, MinIndex(old(list[..]), i, list.Length))
  {
    var minIndex := i;
    var j := i + 1;
    while j < list.Length
      invariant i < j <= list.Length && i <= minIndex < list.Length
      invariant minIndex == MinIndex(list[..], i, j)
    {
      if list[j] < list[minIndex] { minIndex := j; }
      j := j + 1;
    }
    var swap := list[i];
    list[i] := list[minIndex];
    list[minIndex] := swap;
  }

  /** The sort's last loop. */
  method ReplacePlaceholders(list: array<int>)
    modifies list
    ensures list[..] == Replaced(old(list[..]))
  {
    var s := 0;
    while s < list.Length
      invariant 0 <= s <= list.Length
      invariant forall k :: 0 <= k < s ==> list[k] == Replaced(old(list[..]))[k]
      invariant forall k :: s <= k < list.Length ==> list[k] == old(list[k])
    {
      if list[s] == UNUSED { list[s] := NONE; }
      s := s + 1;
    }
  }

  /** The unsorted list `compute_path` fills in before sorting. */
  function Unsorted(inDir: Direction, outDir: Direction): (l: seq<int>)
    ensures |l| == 4
  {
    var t := Turn(inDir, outDir);
    seq(4, i requires 0 <= i < 4 => if i <= t then (inDir + 1 + i) % 4 else UNUSED)
  }

  /** The ascending path with its placeholders at the end. */
  function Padded(inDir: Direction, outDir: Direction): (p: seq<int>)
    ensures |p| == 4
  {
    var s := Ascending(inDir, outDir, 0);
    s + seq(4 - |s|, _ => UNUSED)
  }

  lemma PaddedIsSorted(inDir: Direction, outDir: Direction)
    ensures Sorted(Padded(inDir, outDir))
    ensures Replaced(Padded(inDir, outDir)) == PathList(inDir, outDir)
  {
    hide Ascending;
    AscendingIsSorted(inDir, outDir, 0);
    var s := Ascending(inDir, outDir, 0);
    forall i | 0 <= i < |s| ensures 0 <= s[i] < 4 { assert s[i] in s; }
  }

  /** The quadrants of a turn in the order they are driven through. */
  function Driven(inDir: Direction, outDir: Direction): (d: seq<int>)
    ensures |d| == Turn(inDir, outDir) + 1
  {
    seq(Turn(inDir, outDir) + 1, i requires 0 <= i => (inDir + 1 + i) % 4)
  }

  lemma DrivenOnce(inDir: Direction, outDir: Direction, i: nat, j: nat)
    requires i < j <= Turn(inDir, outDir)
    ensures (inDir + 1 + i) % 4 != (inDir + 1 + j) % 4
  {
  }

  lemma DrivenCrosses(inDir: Direction, outDir: Direction, x: int)
    ensures x in Driven(inDir, outDir) <==> Crosses(inDir, outDir, x)
  {
    if x in Driven(inDir, outDir) { DrivenIsCrossed(inDir, outDir, x); }
    if Crosses(inDir, outDir, x) { assert Driven(inDir, outDir)[(x + 3 - inDir) % 4] == x; }
  }

  lemma DrivenIsCrossed(inDir: Direction, outDir: Direction, x: int)
    requires x in Driven(inDir, outDir)
    ensures Crosses(inDir, outDir, x)
  {
    var d := Driven(inDir, outDir);
    var i :| 0 <= i < |d| && d[i] == x;
    assert (x + 3 - inDir) % 4 == i;
  }

  lemma DrivenCount(inDir: Direction, outDir: Direction, x: int)
    ensures Count(Driven(inDir, outDir), x) == Count(Ascending(inDir, outDir, 0), x)
  {
    var d := Driven(inDir, outDir);
    forall i, j | 0 <= i < j < |d| ensures d[i] != d[j] { DrivenOnce(inDir, outDir, i, j); }
    AscendingIsSorted(inDir, outDir, 0);
    DrivenCrosses(inDir, outDir, x);
    CountDistinct(d, x);
    CountDistinct(Ascending(inDir, outDir, 0), x);
  }

  lemma PaddedPermutes(inDir: Direction, outDir: Direction)
    requires |Ascending(inDir, outDir, 0)| == Turn(inDir, outDir) + 1
    ensures Permutes(Padded(inDir, outDir), Unsorted(inDir, outDir))
  {
    var d, s := Driven(inDir, outDir), Ascending(inDir, outDir, 0);
    var rest := seq(4 - |s|, _ => UNUSED);
    assert Unsorted(inDir, outDir) == d + rest;
    forall x ensures Count(Padded(inDir, outDir), x) == Count(Unsorted(inDir, outDir), x) {
      CountAppend(d, rest, x);
      CountAppend(s, rest, x);
      DrivenCount(inDir, outDir, x);
    }
  }

  lemma AscendingLength(inDir: Direction, outDir: Direction)
    ensures |Ascending(inDir, outDir, 0)| == Turn(inDir, outDir) + 1
  {
    assert |Ascending(inDir, outDir, 3)| == if Crosses(inDir, outDir, 3) then 1 else 0;
    assert |Ascending(inDir, outDir, 2)|
      == (if Crosses(inDir, outDir, 2) then 1 else 0) + |Ascending(inDir, outDir, 3)|;
    assert |Ascending(inDir, outDir, 1)|
      == (if Crosses(inDir, outDir, 1) then 1 else 0) + |Ascending(inDir, outDir, 2)|;
  }

  /** Sorting the filled list gives the path in lock order. */
  lemma SortedPath(inDir: Direction, outDir: Direction)
    ensures Replaced(SortedForm(Unsorted(inDir, outDir))) == PathList(inDir, outDir)
  {
    SortedFormSorts(Unsorted(inDir, outDir));
    PaddedIsSorted(inDir, outDir);
    AscendingLength(inDir, outDir);
    PaddedPermutes(inDir, outDir);
    SortedIsUnique(SortedForm(Unsorted(inDir, outDir)), Padded(inDir, outDir));
  }

  /** `compute_path`: the four turns are told apart as in the code, the list is filled and sorted. */
  method ComputePath(inDir: Direction, outDir: Direction) returns (list: array<int>)
    ensures fresh(list)
    ensures list[..] == PathList(inDir, outDir)
  {
    var enter: int := (inDir + 1) % 4;
    var leave: int := outDir;
    list := new int[4];
    for i := 0 to 4
      invariant forall k :: 0 <= k < i ==> list[k] == UNUSED
    {
      list[i] := UNUSED;
    }
    if enter == leave {
      list[0] := enter;
    } else if leave % 4 == (enter + 1) % 4 {
      list[0] := enter;
      list[1] := leave;
    } else if enter % 2 == leave % 2 {
      for i := 0 to 3
        invariant forall k :: 0 <= k < i ==> list[k] == (enter + k) % 4
        invariant forall k :: i <= k < 4 ==> list[k] == UNUSED
      {
        list[i] := (enter + i) % 4;
      }
    } else if enter % 4 == (leave + 1) % 4 {
      for i := 0 to 4
        invariant forall k :: 0 <= k < i ==> list[k] == (enter + k) % 4
        invariant forall k :: i <= k < 4 ==> list[k] == UNUSED
      {
        list[i] := (enter + i) % 4;
      }
    }
    assert list[..] == Unsorted(inDir, outDir);
    SortIncreasingOrder(list);
    SortedPath(inDir, outDir);
  }
}
