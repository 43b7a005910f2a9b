/** Callgrind's quicksort in place: CLG_(qsort) of dump.c on an array segment. */
module DumpSortArray {
  import opened DumpSort

  /** The rest of the array is as it was. */
  twostate predicate OnlySegment<T>(a: array<T>, lo: nat, hi: nat)
    requires lo <= hi <= a.Length
    reads a
  {
    forall k :: 0 <= k < lo || hi <= k < a.Length ==> a[k] == old(a[k])
  }

  method Swap<T>(a: array<T>, lo: nat, hi: nat, i: nat, j: nat)
    requires lo <= hi <= a.Length && lo + i < hi && lo + j < hi
    modifies a
    ensures a[lo..hi] == Exchange(old(a[lo..hi]), i, j) && OnlySegment(a, lo, hi)
  {
    var t := a[lo + i];
    a[lo + i] := a[lo + j];
    a[lo + j] := t;
  }

  /** Insertion sort for short segments. */
  method InsertionSort<T(!new)>(a: array<T>, lo: nat, hi: nat, cmp: Cmp<T>)
    requires lo <= hi <= a.Length && Ordering(cmp)
    modifies a
    ensures Sorted(a[lo..hi], cmp) && Permuted(old(a[lo..hi]), a[lo..hi]) && OnlySegment(a, lo, hi)
  {
    var n := hi - lo;
    if n == 0 {
      return;
    }
    var pm := 1;
    ghost var s := a[lo..hi];
    PermutedSelf(s);
    while pm < n
      invariant 1 <= pm <= n && a[lo..hi] == s && Sorted(s[..pm], cmp)
      invariant Permuted(old(a[lo..hi]), s) && OnlySegment(a, lo, hi)
    {
      SinkIn(a, lo, hi, pm, cmp);
      s := a[lo..hi];
      pm := pm + 1;
    }
    assert s[..n] == s;
  }

  /** All but position p of the first m elements are in order, and p is in order with what follows it. */
  ghost predicate SortedBut<T>(s: seq<T>, m: nat, p: nat, cmp: Cmp<T>)
    requires p < m <= |s|
  {
    && (forall i, j :: 0 <= i < j < m && i != p && j != p ==> cmp(s[i], s[j]) <= 0)
    && (forall j :: p < j < m ==> cmp(s[p], s[j]) <= 0)
  }

  method SinkIn<T(!new)>(a: array<T>, lo: nat, hi: nat, pm: nat, cmp: Cmp<T>)
    requires lo <= hi <= a.Length && 0 < pm < hi - lo && Ordering(cmp) && Sorted(a[lo..hi][..pm], cmp)
    modifies a
    ensures Sorted(a[lo..hi][..pm + 1], cmp) && Permuted(old(a[lo..hi]), a[lo..hi]) && OnlySegment(a, lo, hi)
  {
    hide Permuted, Ordering, Exchange, SortedBut, Sorted;
    ghost var s := a[lo..hi];
    PermutedSelf(s);
    SinkStarts(s, pm, cmp);
    var pl := pm;
    while pl > 0 && cmp(a[lo + pl - 1], a[lo + pl]) > 0
      invariant 0 <= pl <= pm && a[lo..hi] == s && SortedBut(s, pm + 1, pl, cmp)
      invariant Permuted(old(a[lo..hi]), s) && OnlySegment(a, lo, hi)
    {
      assert s[pl - 1] == a[lo + pl - 1] && s[pl] == a[lo + pl];
      Swap(a, lo, hi, pl, pl - 1);
      ExchangePermuted(old(a[lo..hi]), s, pl, pl - 1);
      SinkKeeps(s, pm + 1, pl, cmp);
      s := Exchange(s, pl, pl - 1);
      pl := pl - 1;
    }
    assert pl > 0 ==> s[pl - 1] == a[lo + pl - 1] && s[pl] == a[lo + pl];
    SunkIsSorted(s, pm + 1, pl, cmp);
  }

  lemma SinkStarts<T>(s: seq<T>, pm: nat, cmp: Cmp<T>)
    requires pm < |s| && Sorted(s[..pm], cmp)
    ensures SortedBut(s, pm + 1, pm, cmp)
  {
    assert forall i :: 0 <= i < pm ==> s[..pm][i] == s[i];
  }

  lemma PermutedSelf<T>(s: seq<T>)
    ensures Permuted(s, s)
  {
  }

  lemma ExchangePermuted<T>(was: seq<T>, s: seq<T>, i: nat, j: nat)
    requires i < |s| && j < |s| && Permuted(was, s)
    ensures Permuted(was, Exchange(s, i, j))
  {
    ExchangePermutes(s, i, j);
  }

  lemma SinkKeeps<T(!new)>(s: seq<T>, m: nat, p: nat, cmp: Cmp<T>)
    requires Ordering(cmp) && 0 < p < m <= |s| && SortedBut(s, m, p, cmp) && cmp(s[p - 1], s[p]) > 0
    ensures SortedBut(Exchange(s, p, p - 1), m, p - 1, cmp)
  {
    assert Agree(cmp, s[p - 1], s[p], s[p]);
  }

  lemma SunkIsSorted<T(!new)>(s: seq<T>, m: nat, p: nat, cmp: Cmp<T>)
    requires Ordering(cmp) && p < m <= |s| && SortedBut(s, m, p, cmp) && (p > 0 ==> cmp(s[p - 1], s[p]) <= 0)
    ensures Sorted(s[..m], cmp)
  {
    forall i, j | 0 <= i < j < m
      ensures cmp(s[i], s[j]) <= 0
    {
      if j == p && i < p - 1 {
        assert Agree(cmp, s[i], s[p - 1], s[p]);
      }
    }
  }

  /** The two scanning loops and the exchange between them. */
  method Partition<T>(a: array<T>, lo: nat, hi: nat, cmp: Cmp<T>) returns (pa: int, pb: int, pc: int, pd: int)
    requires lo <= hi <= a.Length && hi - lo >= 7
    modifies a
    ensures OnlySegment(a, lo, hi) && Scan(a[lo..hi], pa, pb, pc, pd) == Part(old(a[lo..hi]), cmp)
  {
    hide PivotIndex, Exchange;
    ghost var s := a[lo..hi];
    var n := hi - lo;
    var v := a[lo + PivotIndex(a[lo..hi], cmp)];
    assert v == Pivot(s, cmp);
    pa, pb, pc, pd := 0, 0, n - 1, n - 1;
    ghost var c := Scan(s, 0, 0, n - 1, n - 1);
    ghost var goal := Part(s, cmp);
    while true
      invariant c == Scan(a[lo..hi], pa, pb, pc, pd) && InRange(c) && OnlySegment(a, lo, hi)
      invariant Sweep(c, v, cmp) == goal
      decreases pc - pb
    {
      pa, pb, c := ScanUp(a, lo, hi, v, cmp, pa, pb, pc, c);
      pc, pd, c := ScanDown(a, lo, hi, v, cmp, pb, pc, pd, c);
      if pb > pc {
        break;
      }
      c := Move(c, v, cmp);
      Swap(a, lo, hi, pb, pc);
      pb := pb + 1;
      pc := pc - 1;
    }
  }

  /** From below, over elements up to the pivot: ties are parked at the start. */
  method ScanUp<T>(a: array<T>, lo: nat, hi: nat, v: T, cmp: Cmp<T>, pa0: int, pb0: int, pc: int, ghost c0: Scan<T>)
    returns (pa: int, pb: int, ghost c: Scan<T>)
    requires lo <= hi <= a.Length && c0 == Scan(a[lo..hi], pa0, pb0, pc, c0.pd) && InRange(c0)
    modifies a
    ensures c == Scan(a[lo..hi], pa, pb, pc, c0.pd) && InRange(c) && OnlySegment(a, lo, hi)
    ensures Sweep(c, v, cmp) == Sweep(c0, v, cmp) && pb >= pb0
    ensures pb <= pc ==> cmp(c.s[pb], v) > 0
  {
    hide Exchange;
    pa, pb, c := pa0, pb0, c0;
    while pb <= pc && cmp(a[lo + pb], v) <= 0
      invariant c == Scan(a[lo..hi], pa, pb, pc, c0.pd) && InRange(c) && OnlySegment(a, lo, hi)
      invariant Sweep(c, v, cmp) == Sweep(c0, v, cmp) && pb >= pb0
    {
      assert c.s[pb] == a[lo + pb];
      c := Move(c, v, cmp);
      var r := cmp(a[lo + pb], v);
      if r == 0 {
        Swap(a, lo, hi, pa, pb);
        pa := pa + 1;
      }
      pb := pb + 1;
    }
  }

  /** From above, over elements down to the pivot: ties are parked at the end. */
  method ScanDown<T>(a: array<T>, lo: nat, hi: nat, v: T, cmp: Cmp<T>, pb: int, pc0: int, pd0: int, ghost c0: Scan<T>)
    returns (pc: int, pd: int, ghost c: Scan<T>)
    requires lo <= hi <= a.Length && c0 == Scan(a[lo..hi], c0.pa, pb, pc0, pd0) && InRange(c0)
    requires pb <= pc0 ==> cmp(c0.s[pb], v) > 0
    modifies a
    ensures c == Scan(a[lo..hi], c0.pa, pb, pc, pd) && InRange(c) && OnlySegment(a, lo, hi)
    ensures Sweep(c, v, cmp) == Sweep(c0, v, cmp) && pc <= pc0
    ensures pb <= pc ==> cmp(c.s[pc], v) < 0 < cmp(c.s[pb], v)
  {
    hide Exchange;
    pc, pd, c := pc0, pd0, c0;
    while pb <= pc && cmp(a[lo + pc], v) >= 0
      invariant c == Scan(a[lo..hi], c0.pa, pb, pc, pd) && InRange(c) && OnlySegment(a, lo, hi)
      invariant Sweep(c, v, cmp) == Sweep(c0, v, cmp) && pc <= pc0
      invariant pb <= pc ==> cmp(c.s[pb], v) > 0
    {
      assert c.s[pc] == a[lo + pc];
      if pb < pc {
        ExchangeAt(c.s, pc, pd, pb);
      }
      c := Move(c, v, cmp);
      var r := cmp(a[lo + pc], v);
      if r == 0 {
        Swap(a, lo, hi, pc, pd);
        pd := pd - 1;
      }
      pc := pc - 1;
    }
  }

  /** for(r=0;r<s;r++) swap(...): one of the two swap-back loops. */
  method SwapBack<T>(a: array<T>, lo: nat, hi: nat, i: nat, j: nat, k: nat)
    requires lo <= hi <= a.Length && i <= j && lo + j + k <= hi
    modifies a
    ensures a[lo..hi] == SwapRun(old(a[lo..hi]), i, j, k) && OnlySegment(a, lo, hi)
  {
    hide Exchange;
    for r := 0 to k
      invariant a[lo..hi] == SwapRun(old(a[lo..hi]), i, j, r) && OnlySegment(a, lo, hi)
    {
      Swap(a, lo, hi, i + r, j + r);
    }
  }

  /** A whole partition step: scan, then move the ties to the middle. */
  method ThreeWayPartition<T>(a: array<T>, lo: nat, hi: nat, cmp: Cmp<T>) returns (less: nat, more: nat)
    requires lo <= hi <= a.Length && hi - lo >= 7
    modifies a
    ensures OnlySegment(a, lo, hi)
    ensures var s := old(a[lo..hi]);
      a[lo..hi] == Gather(Part(s, cmp)) && less == Less(Part(s, cmp)) && more == More(Part(s, cmp))
  {
    hide Part, SwapRun;
    var n := hi - lo;
    ghost var c := Part(a[lo..hi], cmp);
    var pa, pb, pc, pd := Partition(a, lo, hi, cmp);
    pb := pb - 1;
    pc := pc + 1;
    SwapBack(a, lo, hi, 0, pb + 1 - pa, pa);
    var t := n - 1 - pd;
    SwapBack(a, lo, hi, pc, n - t, t);
    less, more := pb + 1 - pa, pd + 1 - pc;
  }

  lemma PermutedParts<T>(s: seq<T>, cmp: Cmp<T>, lower: seq<T>, upper: seq<T>)
    requires |s| >= 7 && Less(Part(s, cmp)) + More(Part(s, cmp)) <= |s|
    requires Permuted(Lower(s, cmp), lower) && Permuted(Upper(s, cmp), upper)
    ensures Permuted(s, lower + Middle(s, cmp) + upper)
  {
    hide Part, Gather;
    PartPermutes(s, cmp);
    assert Gather(Part(s, cmp)) == Lower(s, cmp) + Middle(s, cmp) + Upper(s, cmp);
  }

  lemma ShortIsClean<T>(s: seq<T>, cmp: Cmp<T>)
    requires |s| < 7
    ensures Clean(s, cmp)
  {
  }

  /** CLG_(qsort): always a permutation, and sorted exactly when the run is clean. */
  method Qsort<T(!new)>(a: array<T>, lo: nat, hi: nat, cmp: Cmp<T>)
    requires lo <= hi <= a.Length && Ordering(cmp)
    modifies a
    ensures OnlySegment(a, lo, hi) && Permuted(old(a[lo..hi]), a[lo..hi])
    ensures Sorted(a[lo..hi], cmp) <==> Clean(old(a[lo..hi]), cmp)
    decreases hi - lo, 0
  {
    hide Part, Gather, Permuted, Sorted, Ordering, Clean, TiesFit;
    ghost var s := a[lo..hi];
    if hi - lo < 7 {
      InsertionSort(a, lo, hi, cmp);
      ShortIsClean(s, cmp);
      return;
    }
    CleanUnfolds(s, cmp);
    var l, m := ThreeWayPartition(a, lo, hi, cmp);
    ghost var lower, upper;
    lower, upper := SortOuter(a, lo, hi, l, m, cmp);
    AssembleParts(s, cmp, lower, upper);
    PermutedParts(s, cmp, lower, upper);
  }

  lemma SubSlice<T>(x: seq<T>, lo: nat, hi: nat, i: nat, j: nat)
    requires i <= j && lo + j <= hi <= |x|
    ensures x[lo..hi][i..j] == x[lo + i..lo + j]
  {
    var y := x[lo..hi];
    forall k | 0 <= k < j - i
      ensures y[i..j][k] == x[lo + i..lo + j][k]
    {
      assert y[i..j][k] == y[i + k] == x[lo + (i + k)];
    }
  }

  /** The two recursive calls: the first l and the last m elements. */
  method SortOuter<T(!new)>(a: array<T>, lo: nat, hi: nat, l: nat, m: nat, cmp: Cmp<T>)
    returns (ghost lower: seq<T>, ghost upper: seq<T>)
    requires lo <= hi <= a.Length && l + m < hi - lo && Ordering(cmp)
    modifies a
    ensures OnlySegment(a, lo, hi)
    ensures var g := old(a[lo..hi]); var n := hi - lo;
      && a[lo..hi] == lower + g[l..n - m] + upper
      && Permuted(g[..l], lower) && Permuted(g[n - m..], upper)
      && (Sorted(lower, cmp) <==> Clean(g[..l], cmp)) && (Sorted(upper, cmp) <==> Clean(g[n - m..], cmp))
    decreases hi - lo - 1, 2
  {
    hide Permuted, Sorted, Ordering, Clean;
    ghost var s0 := a[..];
    SortShort(a, lo, lo + l, cmp);
    ghost var s1 := a[..];
    lower := a[lo..lo + l];
    SortShort(a, hi - m, hi, cmp);
    upper := a[hi - m..hi];
    OuterDone(s0, s1, a[..], lo, hi, l, m);
  }

  /** The middle part stays, and each outer part is changed by its own call only. */
  lemma OuterDone<T>(s0: seq<T>, s1: seq<T>, s2: seq<T>, lo: nat, hi: nat, l: nat, m: nat)
    requires |s0| == |s1| == |s2| && lo <= hi <= |s0| && l + m <= hi - lo
    requires forall k :: 0 <= k < |s0| && !(lo <= k < lo + l) ==> s1[k] == s0[k]
    requires forall k :: 0 <= k < |s0| && !(hi - m <= k < hi) ==> s2[k] == s1[k]
    ensures var g, n := s0[lo..hi], hi - lo;
      && s0[lo..lo + l] == g[..l] && s1[hi - m..hi] == g[n - m..]
      && s2[lo..hi] == s1[lo..lo + l] + g[l..n - m] + s2[hi - m..hi]
  {
    OuterParts(s0, lo, hi, l, m);
    SliceKept(s0, s1, lo, lo + l, lo + l, hi - m);
    SliceKept(s0, s1, lo, lo + l, hi - m, hi);
    SliceKept(s1, s2, hi - m, hi, lo, lo + l);
    SliceKept(s1, s2, hi - m, hi, lo + l, hi - m);
    ThreeParts(s2, lo, lo + l, hi - m, hi);
  }

  lemma OuterParts<T>(x: seq<T>, lo: nat, hi: nat, l: nat, m: nat)
    requires lo <= hi <= |x| && l + m <= hi - lo
    ensures var g, n := x[lo..hi], hi - lo;
      g[..l] == x[lo..lo + l] && g[l..n - m] == x[lo + l..hi - m] && g[n - m..] == x[hi - m..hi]
  {
    var g, n := x[lo..hi], hi - lo;
    SubSlice(x, lo, hi, 0, l);
    SubSlice(x, lo, hi, l, n - m);
    SubSlice(x, lo, hi, n - m, n);
    assert g[..l] == g[0..l] && g[n - m..] == g[n - m..n];
  }

  /** A slice apart from the segment that changed */
  lemma SliceKept<T>(x: seq<T>, y: seq<T>, lo: nat, hi: nat, i: nat, j: nat)
    requires |x| == |y| && lo <= hi <= |x| && i <= j <= |x| && (j <= lo || hi <= i)
    requires forall k :: 0 <= k < |x| && !(lo <= k < hi) ==> y[k] == x[k]
    ensures y[i..j] == x[i..j]
  {
  }

  lemma ThreeParts<T>(x: seq<T>, a: nat, b: nat, c: nat, d: nat)
    requires a <= b <= c <= d <= |x|
    ensures x[a..d] == x[a..b] + x[b..c] + x[c..d]
  {
  }

  /** Segments of at most one element are left alone. */
  method SortShort<T(!new)>(a: array<T>, lo: nat, hi: nat, cmp: Cmp<T>)
    requires lo <= hi <= a.Length && Ordering(cmp)
    modifies a
    ensures OnlySegment(a, lo, hi) && Permuted(old(a[lo..hi]), a[lo..hi])
    ensures Sorted(a[lo..hi], cmp) <==> Clean(old(a[lo..hi]), cmp)
    decreases hi - lo, 1
  {
    if hi - lo > 1 {
      Qsort(a, lo, hi, cmp);
    }
  }
}
