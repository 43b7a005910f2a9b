/** Callgrind's quicksort of dump.c (after Bentley and McIlroy), on segments as values: the choice of
    pivot, the scanning loop with pivot-equal elements parked at both ends, and the moves that bring
    them to the middle.  The left-hand move is only right when there are no more parked elements than
    smaller ones; this module says exactly when the sort therefore sorts. */
module DumpSort {

  type Cmp<!T> = (T, T) -> int

  ghost predicate Agree<T>(cmp: Cmp<T>, x: T, y: T, z: T) {
    && (cmp(x, y) < 0 <==> cmp(y, x) > 0)
    && (cmp(x, y) <= 0 && cmp(y, z) <= 0 ==> cmp(x, z) <= 0)
  }

  /** A comparison function that orders its elements, possibly with ties. */
  ghost predicate Ordering<T(!new)>(cmp: Cmp<T>) {
    forall x, y, z :: Agree(cmp, x, y, z)
  }

  ghost predicate Sorted<T>(s: seq<T>, cmp: Cmp<T>) {
    forall i, j :: 0 <= i < j < |s| ==> cmp(s[i], s[j]) <= 0
  }

  ghost predicate PairwiseDistinct<T>(s: seq<T>, cmp: Cmp<T>) {
    forall i, j :: 0 <= i < j < |s| ==> cmp(s[i], s[j]) != 0
  }

  function Exchange<T>(s: seq<T>, i: nat, j: nat): (r: seq<T>)
    requires i < |s| && j < |s|
    ensures |r| == |s|
  {
    s[i := s[j]][j := s[i]]
  }

  lemma ExchangePermutes<T>(s: seq<T>, i: nat, j: nat)
    requires i < |s| && j < |s|
    ensures multiset(Exchange(s, i, j)) == multiset(s)
  {
  }

  lemma ExchangeAt<T>(s: seq<T>, i: nat, j: nat, p: nat)
    requires i < |s| && j < |s| && p < |s|
    ensures Exchange(s, i, j)[p] == if p == j then s[i] else if p == i then s[j] else s[p]
  {
  }

  // ---------------------------------------------------------------------------
  // Pivot

  function Med3<T>(s: seq<T>, a: nat, b: nat, c: nat, cmp: Cmp<T>): (r: nat)
    requires a < |s| && b < |s| && c < |s|
    ensures r == a || r == b || r == c
  {
    if cmp(s[a], s[b]) < 0
    then (if cmp(s[b], s[c]) < 0 then b else if cmp(s[a], s[c]) < 0 then c else a)
    else (if cmp(s[b], s[c]) > 0 then b else if cmp(s[a], s[c]) > 0 then c else a)
  }

  /** Middle element, median of three, or pseudo-median of nine. */
  function PivotIndex<T>(s: seq<T>, cmp: Cmp<T>): (r: nat)
    requires |s| >= 7
    ensures r < |s|
  {
    var n := |s|;
    if n <= 7 then n / 2
    else if n <= 40 then Med3(s, 0, n / 2, n - 1, cmp)
    else
      var d := n / 8;
      var l := Med3(s, 0, d, 2 * d, cmp);
      var m := Med3(s, n / 2 - d, n / 2, n / 2 + d, cmp);
      var r := Med3(s, n - 1 - 2 * d, n - 1 - d, n - 1, cmp);
      Med3(s, l, m, r, cmp)
  }

  /** Neither of x and y is on the same side of m as the other, except for ties. */
  ghost predicate Between<T>(x: T, m: T, y: T, cmp: Cmp<T>) {
    (cmp(x, m) <= 0 && cmp(m, y) <= 0) || (cmp(y, m) <= 0 && cmp(m, x) <= 0)
  }

  /** The median of three is one of them and lies between the others. */
  lemma Med3Between<T(!new)>(s: seq<T>, a: nat, b: nat, c: nat, cmp: Cmp<T>)
    requires a < |s| && b < |s| && c < |s| && Ordering(cmp)
    ensures var r := Med3(s, a, b, c, cmp);
      || (r == a && Between(s[b], s[a], s[c], cmp)) || (r == b && Between(s[a], s[b], s[c], cmp))
      || (r == c && Between(s[a], s[c], s[b], cmp))
  {
    assert Agree(cmp, s[a], s[b], s[c]) && Agree(cmp, s[b], s[c], s[a]) && Agree(cmp, s[a], s[c], s[b]);
  }

  /** The pivot of a segment of 8 to 40 elements is the median of its first, middle and last one. */
  lemma PivotBetween<T(!new)>(s: seq<T>, cmp: Cmp<T>)
    requires 7 < |s| <= 40 && Ordering(cmp)
    ensures var r, m, n := PivotIndex(s, cmp), |s| / 2, |s| - 1;
      || (r == 0 && Between(s[m], s[0], s[n], cmp)) || (r == m && Between(s[0], s[m], s[n], cmp))
      || (r == n && Between(s[0], s[n], s[m], cmp))
  {
    hide Med3, Between;
    Med3Between(s, 0, |s| / 2, |s| - 1, cmp);
  }

  // ---------------------------------------------------------------------------
  // Scanning

  /** A scanning state: s[..pa] and s[pd+1..] tie with the pivot, s[pa..pb] is smaller,
      s[pc+1..pd+1] is larger, s[pb..pc+1] is yet to be looked at. */
  datatype Scan<T> = Scan(s: seq<T>, pa: int, pb: int, pc: int, pd: int)

  ghost predicate InRange<T>(c: Scan<T>) {
    0 <= c.pa <= c.pb <= c.pc + 1 && c.pc <= c.pd < |c.s|
  }

  ghost predicate Scanned<T>(c: Scan<T>, v: T, cmp: Cmp<T>) {
    && InRange(c)
    && (forall i :: 0 <= i < c.pa ==> cmp(c.s[i], v) == 0)
    && (forall i :: c.pa <= i < c.pb ==> cmp(c.s[i], v) < 0)
    && (forall i :: c.pc < i <= c.pd ==> cmp(c.s[i], v) > 0)
    && (forall i :: c.pd < i < |c.s| ==> cmp(c.s[i], v) == 0)
  }

  /** One move of the scan. */
  function Move<T>(c: Scan<T>, v: T, cmp: Cmp<T>): (r: Scan<T>)
    requires InRange(c) && c.pb <= c.pc
    ensures InRange(r) && r.pc - r.pb < c.pc - c.pb && |r.s| == |c.s|
  {
    if cmp(c.s[c.pb], v) == 0 then Scan(Exchange(c.s, c.pa, c.pb), c.pa + 1, c.pb + 1, c.pc, c.pd)
    else if cmp(c.s[c.pb], v) < 0 then c.(pb := c.pb + 1)
    else if cmp(c.s[c.pc], v) == 0 then Scan(Exchange(c.s, c.pc, c.pd), c.pa, c.pb, c.pc - 1, c.pd - 1)
    else if cmp(c.s[c.pc], v) > 0 then c.(pc := c.pc - 1)
    else Scan(Exchange(c.s, c.pb, c.pc), c.pa, c.pb + 1, c.pc - 1, c.pd)
  }

  function Sweep<T>(c: Scan<T>, v: T, cmp: Cmp<T>): (r: Scan<T>)
    requires InRange(c)
    ensures InRange(r) && r.pb == r.pc + 1 && |r.s| == |c.s|
    decreases c.pc - c.pb + 1
  {
    if c.pb > c.pc then c else Sweep(Move(c, v, cmp), v, cmp)
  }

  lemma {:induction false} SweepPermutes<T>(c: Scan<T>, v: T, cmp: Cmp<T>)
    requires InRange(c)
    ensures multiset(Sweep(c, v, cmp).s) == multiset(c.s)
    decreases c.pc - c.pb + 1
  {
    if c.pb <= c.pc {
      SweepPermutes(Move(c, v, cmp), v, cmp);
      ExchangePermutes(c.s, c.pa, c.pb);
      ExchangePermutes(c.s, c.pc, c.pd);
      ExchangePermutes(c.s, c.pb, c.pc);
    }
  }

  lemma MoveScans<T>(c: Scan<T>, v: T, cmp: Cmp<T>)
    requires Scanned(c, v, cmp) && c.pb <= c.pc
    ensures Scanned(Move(c, v, cmp), v, cmp)
  {
  }

  lemma {:induction false} SweepScans<T>(c: Scan<T>, v: T, cmp: Cmp<T>)
    requires Scanned(c, v, cmp)
    ensures Scanned(Sweep(c, v, cmp), v, cmp)
    decreases c.pc - c.pb + 1
  {
    if c.pb <= c.pc {
      MoveScans(c, v, cmp);
      SweepScans(Move(c, v, cmp), v, cmp);
    }
  }

  // ---------------------------------------------------------------------------
  // Bringing the ties to the middle

  /** Exchange s[i+r] and s[j+r] for r = 0, 1, ..., k-1. */
  function SwapRun<T>(s: seq<T>, i: nat, j: nat, k: nat): (r: seq<T>)
    requires i <= j && j + k <= |s|
    ensures |r| == |s|
  {
    if k == 0 then s else Exchange(SwapRun(s, i, j, k - 1), i + k - 1, j + k - 1)
  }

  lemma {:induction false} SwapRunAt<T>(s: seq<T>, i: nat, j: nat, k: nat, p: nat)
    requires i <= j && j + k <= |s| && p < |s|
    ensures i <= p < i + k ==> SwapRun(s, i, j, k)[p] == s[p + j - i]
    ensures p < i || i + k <= p < j || j + k <= p ==> SwapRun(s, i, j, k)[p] == s[p]
    ensures k <= j - i && j <= p < j + k ==> SwapRun(s, i, j, k)[p] == s[p - j + i]
  {
    if k > 0 {
      var prev, a, b := SwapRun(s, i, j, k - 1), i + k - 1, j + k - 1;
      assert SwapRun(s, i, j, k) == Exchange(prev, a, b);
      hide Exchange, SwapRun;
      ExchangeAt(prev, a, b, p);
      if p == b {
        SwapRunAt(s, i, j, k - 1, a);
      } else if p == a {
        SwapRunAt(s, i, j, k - 1, b);
      } else {
        SwapRunAt(s, i, j, k - 1, p);
      }
    }
  }

  /** However the two runs overlap, what stood in s[i..j] ends up just behind the k elements moved forward. */
  lemma {:induction false} SwapRunSlides<T>(s: seq<T>, i: nat, j: nat, k: nat, v: T, cmp: Cmp<T>, sign: int)
    requires i <= j && j + k <= |s|
    requires forall p :: i <= p < j ==> Sign(cmp(s[p], v)) == sign
    ensures forall p :: i + k <= p < j + k ==> Sign(cmp(SwapRun(s, i, j, k)[p], v)) == sign
  {
    if k > 0 {
      SwapRunSlides(s, i, j, k - 1, v, cmp, sign);
    }
  }

  lemma {:induction false} SwapRunPermutes<T>(s: seq<T>, i: nat, j: nat, k: nat)
    requires i <= j && j + k <= |s|
    ensures multiset(SwapRun(s, i, j, k)) == multiset(s)
  {
    hide Exchange;
    if k > 0 {
      SwapRunPermutes(s, i, j, k - 1);
      ExchangePermutes(SwapRun(s, i, j, k - 1), i + k - 1, j + k - 1);
    }
  }

  function Sign(x: int): int {
    if x < 0 then -1 else if x > 0 then 1 else 0
  }

  /** The two swap-back loops at the end of a partition. */
  function Gather<T>(c: Scan<T>): (r: seq<T>)
    requires InRange(c) && c.pb == c.pc + 1
    ensures |r| == |c.s|
  {
    var ties := |c.s| - 1 - c.pd;
    SwapRun(SwapRun(c.s, 0, c.pb - c.pa, c.pa), c.pb, |c.s| - ties, ties)
  }

  /** The moves work out: no more ties parked on the left than smaller elements, or none of the latter. */
  predicate LeftFits<T>(c: Scan<T>) {
    c.pb == c.pa || c.pa <= c.pb - c.pa
  }

  function Less<T>(c: Scan<T>): int { c.pb - c.pa }
  function More<T>(c: Scan<T>): int { c.pd - c.pc }

  /** Smaller, tied, larger -- in that order. */
  ghost predicate ThreeWay<T>(s: seq<T>, less: int, more: int, v: T, cmp: Cmp<T>) {
    && 0 <= less && 0 <= more && less + more <= |s|
    && (forall i :: 0 <= i < less ==> cmp(s[i], v) < 0)
    && (forall i :: less <= i < |s| - more ==> cmp(s[i], v) == 0)
    && (forall i :: |s| - more <= i < |s| ==> cmp(s[i], v) > 0)
  }

  lemma GatherRight<T>(c: Scan<T>, m: seq<T>, v: T, cmp: Cmp<T>, t: nat, r: seq<T>)
    requires Scanned(c, v, cmp) && c.pb == c.pc + 1 && |m| == |c.s|
    requires forall i :: c.pb <= i < |m| ==> m[i] == c.s[i]
    requires t == |m| - 1 - c.pd && r == SwapRun(m, c.pb, |m| - t, t)
    ensures forall i :: 0 <= i < c.pb ==> r[i] == m[i]
    ensures forall i :: c.pb <= i < |m| - More(c) ==> cmp(r[i], v) == 0
    ensures forall i :: |m| - More(c) <= i < |m| ==> cmp(r[i], v) > 0
  {
    hide SwapRun;
    var n := |m|;
    SwapRunSlides(m, c.pb, n - t, t, v, cmp, 1);
    forall i | 0 <= i < n - More(c)
      ensures if i < c.pb then r[i] == m[i] else cmp(r[i], v) == 0
    {
      SwapRunAt(m, c.pb, n - t, t, i);
      assert i >= c.pb ==> r[i] == c.s[i + n - t - c.pb];
    }
  }

  lemma GatherLeft<T>(c: Scan<T>, v: T, cmp: Cmp<T>, i: nat)
    requires Scanned(c, v, cmp) && i < |c.s|
    ensures var r := SwapRun(c.s, 0, c.pb - c.pa, c.pa);
      && (i >= c.pb ==> r[i] == c.s[i])
      && (LeftFits(c) && i < c.pb ==> if i < Less(c) then cmp(r[i], v) < 0 else cmp(r[i], v) == 0)
      && (!LeftFits(c) && i < c.pa ==> if i < c.pa - Less(c) then cmp(r[i], v) == 0 else cmp(r[i], v) < 0)
  {
    hide SwapRun;
    SwapRunAt(c.s, 0, c.pb - c.pa, c.pa, i);
  }

  /** The partition is a proper three-way one exactly when the left-hand ties fit. */
  lemma GatherThreeWay<T>(c: Scan<T>, v: T, cmp: Cmp<T>)
    requires Scanned(c, v, cmp) && c.pb == c.pc + 1
    ensures LeftFits(c) ==> ThreeWay(Gather(c), Less(c), More(c), v, cmp)
    ensures !LeftFits(c) ==>
      cmp(Gather(c)[0], v) == 0 && 0 < Less(c) <= c.pa - 1 < |c.s| - More(c) && cmp(Gather(c)[c.pa - 1], v) < 0
  {
    hide SwapRun, Scanned;
    assert InRange(c) by { ScannedRange(c, v, cmp); }
    var m := SwapRun(c.s, 0, c.pb - c.pa, c.pa);
    forall i | 0 <= i < |m|
      ensures i >= c.pb ==> m[i] == c.s[i]
    {
      GatherLeft(c, v, cmp, i);
    }
    GatherRight(c, m, v, cmp, |m| - 1 - c.pd, Gather(c));
    if LeftFits(c) {
      forall i | 0 <= i < c.pb
        ensures if i < Less(c) then cmp(Gather(c)[i], v) < 0 else cmp(Gather(c)[i], v) == 0
      {
        GatherLeft(c, v, cmp, i);
      }
    } else {
      GatherLeft(c, v, cmp, 0);
      GatherLeft(c, v, cmp, c.pa - 1);
    }
  }

  lemma ScannedRange<T>(c: Scan<T>, v: T, cmp: Cmp<T>)
    requires Scanned(c, v, cmp)
    ensures InRange(c)
  {
  }

  // ---------------------------------------------------------------------------
  // When the sort sorts

  function Pivot<T>(s: seq<T>, cmp: Cmp<T>): T
    requires |s| >= 7
  {
    s[PivotIndex(s, cmp)]
  }

  /** The scan of a whole segment. */
  function Part<T>(s: seq<T>, cmp: Cmp<T>): (c: Scan<T>)
    requires |s| >= 7
    ensures InRange(c) && c.pb == c.pc + 1 && |c.s| == |s|
  {
    Sweep(Scan(s, 0, 0, |s| - 1, |s| - 1), Pivot(s, cmp), cmp)
  }

  lemma PartScans<T>(s: seq<T>, cmp: Cmp<T>)
    requires |s| >= 7
    ensures Scanned(Part(s, cmp), Pivot(s, cmp), cmp)
  {
    hide Sweep, PivotIndex;
    SweepScans(Scan(s, 0, 0, |s| - 1, |s| - 1), Pivot(s, cmp), cmp);
  }

  lemma PartPermutes<T>(s: seq<T>, cmp: Cmp<T>)
    requires |s| >= 7
    ensures multiset(Part(s, cmp).s) == multiset(s) == multiset(Gather(Part(s, cmp)))
  {
    hide Sweep, PivotIndex, Gather;
    SweepPermutes(Scan(s, 0, 0, |s| - 1, |s| - 1), Pivot(s, cmp), cmp);
    GatherPermutes(Part(s, cmp));
  }

  lemma GatherPermutes<T>(c: Scan<T>)
    requires InRange(c) && c.pb == c.pc + 1
    ensures multiset(Gather(c)) == multiset(c.s)
  {
    hide SwapRun;
    var t := |c.s| - 1 - c.pd;
    var m := SwapRun(c.s, 0, c.pb - c.pa, c.pa);
    SwapRunPermutes(c.s, 0, c.pb - c.pa, c.pa);
    SwapRunPermutes(m, c.pb, |c.s| - t, t);
  }

  /** The pivot ties with itself, so both recursive calls are on shorter segments. */
  lemma PartShrinks<T(!new)>(s: seq<T>, cmp: Cmp<T>)
    requires |s| >= 7 && Ordering(cmp)
    ensures Less(Part(s, cmp)) + More(Part(s, cmp)) < |s|
  {
    hide Part, Gather, PivotIndex;
    var c, v := Part(s, cmp), Pivot(s, cmp);
    PartScans(s, cmp);
    PartPermutes(s, cmp);
    assert v in multiset(s);
    assert v in c.s;
    assert Agree(cmp, v, v, v);
  }

  /** The part of a partitioned segment that is sorted next as the smaller elements ... */
  function Lower<T>(s: seq<T>, cmp: Cmp<T>): (r: seq<T>)
    requires |s| >= 7
    ensures |r| == Less(Part(s, cmp))
  {
    Gather(Part(s, cmp))[..Less(Part(s, cmp))]
  }

  /** ... and as the larger ones. */
  function Upper<T>(s: seq<T>, cmp: Cmp<T>): (r: seq<T>)
    requires |s| >= 7
    ensures |r| == More(Part(s, cmp))
  {
    Gather(Part(s, cmp))[|s| - More(Part(s, cmp))..]
  }

  function Middle<T>(s: seq<T>, cmp: Cmp<T>): (r: seq<T>)
    requires |s| >= 7
  {
    Gather(Part(s, cmp))[Less(Part(s, cmp))..|s| - More(Part(s, cmp))]
  }

  predicate TiesFit<T>(s: seq<T>, cmp: Cmp<T>)
    requires |s| >= 7
  {
    LeftFits(Part(s, cmp))
  }

  /** No partition met while sorting `s` parks more ties on its left than it finds smaller elements. */
  predicate Clean<T>(s: seq<T>, cmp: Cmp<T>)
    decreases |s|
  {
    |s| < 7 ||
    (&& TiesFit(s, cmp) && |Lower(s, cmp)| < |s| && |Upper(s, cmp)| < |s|
     && Clean(Lower(s, cmp), cmp) && Clean(Upper(s, cmp), cmp))
  }

  ghost predicate Permuted<T>(a: seq<T>, b: seq<T>) {
    multiset(a) == multiset(b)
  }

  lemma PermutedIndex<T>(a: seq<T>, b: seq<T>, i: nat) returns (k: nat)
    requires Permuted(a, b) && i < |a|
    ensures k < |b| && b[k] == a[i]
  {
    assert a[i] in multiset(b);
    k :| 0 <= k < |b| && b[k] == a[i];
  }

  lemma PermutedClass<T>(a: seq<T>, b: seq<T>, v: T, cmp: Cmp<T>, sign: int)
    requires Permuted(a, b) && forall i :: 0 <= i < |a| ==> Sign(cmp(a[i], v)) == sign
    ensures forall i :: 0 <= i < |b| ==> Sign(cmp(b[i], v)) == sign
  {
    forall i | 0 <= i < |b|
      ensures Sign(cmp(b[i], v)) == sign
    {
      var k := PermutedIndex(b, a, i);
    }
  }

  /** Elements on different sides of a pivot are in order. */
  lemma AcrossPivot<T(!new)>(x: T, y: T, v: T, cmp: Cmp<T>)
    requires Ordering(cmp) && cmp(x, v) <= 0 <= cmp(y, v)
    ensures cmp(x, y) <= 0
    ensures cmp(x, v) < 0 || cmp(y, v) > 0 ==> cmp(x, y) < 0
  {
    assert Agree(cmp, x, v, y) && Agree(cmp, v, y, x) && Agree(cmp, y, v, x);
    assert Agree(cmp, y, x, v) && Agree(cmp, v, y, y) && Agree(cmp, x, y, v) && Agree(cmp, v, x, y);
  }

  /** A properly partitioned segment is sorted as soon as its outer parts are. */
  lemma ThreeWaySorted<T(!new)>(s: seq<T>, less: int, more: int, v: T, cmp: Cmp<T>)
    requires Ordering(cmp) && ThreeWay(s, less, more, v, cmp)
    requires Sorted(s[..less], cmp) && Sorted(s[|s| - more..], cmp)
    ensures Sorted(s, cmp)
  {
    forall i, j | 0 <= i < j < |s|
      ensures cmp(s[i], s[j]) <= 0
    {
      if j < less {
        assert s[i] == s[..less][i] && s[j] == s[..less][j];
      } else if i >= |s| - more {
        var u := s[|s| - more..];
        assert s[i] == u[i - (|s| - more)] && s[j] == u[j - (|s| - more)];
      } else {
        AcrossPivot(s[i], s[j], v, cmp);
      }
    }
  }

  lemma JoinSorted<T(!new)>(lower: seq<T>, middle: seq<T>, upper: seq<T>, v: T, cmp: Cmp<T>)
    requires Ordering(cmp)
    requires forall i :: 0 <= i < |lower| ==> Sign(cmp(lower[i], v)) == -1
    requires forall i :: 0 <= i < |middle| ==> cmp(middle[i], v) == 0
    requires forall i :: 0 <= i < |upper| ==> Sign(cmp(upper[i], v)) == 1
    ensures Sorted(lower + middle + upper, cmp) <==> Sorted(lower, cmp) && Sorted(upper, cmp)
  {
    var r, n := lower + middle + upper, |lower| + |middle|;
    assert r[..|lower|] == lower && r[|r| - |upper|..] == upper;
    if Sorted(lower, cmp) && Sorted(upper, cmp) {
      ThreeWaySorted(r, |lower|, |upper|, v, cmp);
    }
    if Sorted(r, cmp) {
      assert forall i :: 0 <= i < |lower| ==> lower[i] == r[i];
      assert forall i :: 0 <= i < |upper| ==> upper[i] == r[n + i];
    }
  }

  lemma JoinUnsorted<T(!new)>(lower: seq<T>, middle: seq<T>, upper: seq<T>, k: nat, p: nat, v: T, cmp: Cmp<T>)
    requires Ordering(cmp) && k < |lower| && p < |middle| && cmp(lower[k], v) == 0 && cmp(middle[p], v) < 0
    ensures !Sorted(lower + middle + upper, cmp)
  {
    var r := lower + middle + upper;
    AcrossPivot(middle[p], lower[k], v, cmp);
    assert Agree(cmp, middle[p], lower[k], v);
    assert r[k] == lower[k] && r[|lower| + p] == middle[p];
  }

  /** The exact condition, one level up: sorting the two outer parts of a partition yields a sorted
      segment if and only if the ties fitted and both parts came out sorted. */
  lemma Assemble<T(!new)>(c: Scan<T>, v: T, cmp: Cmp<T>, lower: seq<T>, upper: seq<T>)
    requires Ordering(cmp) && Scanned(c, v, cmp) && c.pb == c.pc + 1
    requires Permuted(Gather(c)[..Less(c)], lower) && Permuted(Gather(c)[|c.s| - More(c)..], upper)
    ensures Sorted(lower + Gather(c)[Less(c)..|c.s| - More(c)] + upper, cmp) <==>
      LeftFits(c) && Sorted(lower, cmp) && Sorted(upper, cmp)
  {
    hide Gather, Permuted, Sorted, Ordering, Scanned;
    ScannedRange(c, v, cmp);
    GatherThreeWay(c, v, cmp);
    var g, l, m := Gather(c), Less(c), More(c);
    var middle := g[l..|g| - m];
    if LeftFits(c) {
      PermutedClass(g[..l], lower, v, cmp, -1);
      PermutedClass(g[|g| - m..], upper, v, cmp, 1);
      JoinSorted(lower, middle, upper, v, cmp);
    } else {
      assert g[..l][0] == g[0];
      var k := PermutedIndex(g[..l], lower, 0);
      assert middle[c.pa - 1 - l] == g[c.pa - 1];
      JoinUnsorted(lower, middle, upper, k, c.pa - 1 - l, v, cmp);
    }
  }

  lemma AssembleParts<T(!new)>(s: seq<T>, cmp: Cmp<T>, lower: seq<T>, upper: seq<T>)
    requires |s| >= 7 && Ordering(cmp)
    requires Permuted(Lower(s, cmp), lower) && Permuted(Upper(s, cmp), upper)
    ensures Sorted(lower + Middle(s, cmp) + upper, cmp) <==> TiesFit(s, cmp) && Sorted(lower, cmp) && Sorted(upper, cmp)
  {
    hide Part, Gather, Sorted, Permuted, Ordering, PivotIndex;
    PartScans(s, cmp);
    Assemble(Part(s, cmp), Pivot(s, cmp), cmp, lower, upper);
  }

  /** A segment is clean if its partition is and the two parts sorted next are. */
  lemma CleanUnfolds<T(!new)>(s: seq<T>, cmp: Cmp<T>)
    requires |s| >= 7 && Ordering(cmp)
    ensures |Lower(s, cmp)| + |Upper(s, cmp)| < |s|
    ensures Clean(s, cmp) <==> TiesFit(s, cmp) && Clean(Lower(s, cmp), cmp) && Clean(Upper(s, cmp), cmp)
  {
    hide Part, Gather, Ordering, PivotIndex;
    PartShrinks(s, cmp);
  }

  // ---------------------------------------------------------------------------
  // Distinct elements

  lemma ExchangeDistinct<T(!new)>(s: seq<T>, i: nat, j: nat, cmp: Cmp<T>)
    requires Ordering(cmp) && i < |s| && j < |s| && PairwiseDistinct(s, cmp)
    ensures PairwiseDistinct(Exchange(s, i, j), cmp)
  {
    hide Exchange;
    forall p, q | 0 <= p < q < |s|
      ensures cmp(Exchange(s, i, j)[p], Exchange(s, i, j)[q]) != 0
    {
      ExchangeAt(s, i, j, p);
      ExchangeAt(s, i, j, q);
      var x, y := Exchange(s, i, j)[p], Exchange(s, i, j)[q];
      assert Agree(cmp, x, y, x) && Agree(cmp, y, x, y);
    }
  }

  lemma {:induction false} SweepDistinct<T(!new)>(c: Scan<T>, v: T, cmp: Cmp<T>)
    requires Ordering(cmp) && InRange(c) && PairwiseDistinct(c.s, cmp)
    ensures PairwiseDistinct(Sweep(c, v, cmp).s, cmp)
    decreases c.pc - c.pb + 1
  {
    hide Exchange, PairwiseDistinct, Ordering;
    if c.pb <= c.pc {
      ExchangeDistinct(c.s, c.pa, c.pb, cmp);
      ExchangeDistinct(c.s, c.pc, c.pd, cmp);
      ExchangeDistinct(c.s, c.pb, c.pc, cmp);
      SweepDistinct(Move(c, v, cmp), v, cmp);
    }
  }

  lemma {:induction false} SwapRunDistinct<T(!new)>(s: seq<T>, i: nat, j: nat, k: nat, cmp: Cmp<T>)
    requires Ordering(cmp) && i <= j && j + k <= |s| && PairwiseDistinct(s, cmp)
    ensures PairwiseDistinct(SwapRun(s, i, j, k), cmp)
  {
    hide Exchange, PairwiseDistinct, Ordering;
    if k > 0 {
      SwapRunDistinct(s, i, j, k - 1, cmp);
      ExchangeDistinct(SwapRun(s, i, j, k - 1), i + k - 1, j + k - 1, cmp);
    }
  }

  lemma PartDistinct<T(!new)>(s: seq<T>, cmp: Cmp<T>)
    requires |s| >= 7 && Ordering(cmp) && PairwiseDistinct(s, cmp)
    ensures LeftFits(Part(s, cmp)) && PairwiseDistinct(Gather(Part(s, cmp)), cmp)
  {
    hide Sweep, SwapRun, PivotIndex;
    var c, v := Part(s, cmp), Pivot(s, cmp);
    var t := |s| - 1 - c.pd;
    var m := SwapRun(c.s, 0, c.pb - c.pa, c.pa);
    PartScans(s, cmp);
    SweepDistinct(Scan(s, 0, 0, |s| - 1, |s| - 1), v, cmp);
    SwapRunDistinct(c.s, 0, c.pb - c.pa, c.pa, cmp);
    SwapRunDistinct(m, c.pb, |s| - t, t, cmp);
    if c.pa >= 2 {
      assert Agree(cmp, c.s[0], c.s[1], v) && Agree(cmp, c.s[1], c.s[0], v);
      AcrossPivot(c.s[0], c.s[1], v, cmp);
      AcrossPivot(c.s[1], c.s[0], v, cmp);
    }
  }

  /** Without ties between elements, every run is clean, so the sort sorts. */
  lemma {:induction false} DistinctIsClean<T(!new)>(s: seq<T>, cmp: Cmp<T>)
    requires Ordering(cmp) && PairwiseDistinct(s, cmp)
    ensures Clean(s, cmp)
    decreases |s|
  {
    if |s| >= 7 {
      hide Part, Gather, Ordering;
      PartShrinks(s, cmp);
      PartDistinct(s, cmp);
      DistinctIsClean(Lower(s, cmp), cmp);
      DistinctIsClean(Upper(s, cmp), cmp);
    }
  }

  // ---------------------------------------------------------------------------
  // A run that is not clean

  function Subtract(x: int, y: int): int {
    x - y
  }

  /** One move of the scan over a tie found where it belongs. */
  lemma TieInPlace(s: seq<int>, p: nat, v: int)
    requires p < |s| == 7 && s[p] == v
    ensures Sweep(Scan(s, p, p, 6, 6), v, Subtract) == Sweep(Scan(s, p + 1, p + 1, 6, 6), v, Subtract)
  {
    assert Exchange(s, p, p) == s;
  }

  lemma TiesSweep(s: seq<int>)
    requires s == [1, 1, 1, 1, 0, 1, 1]
    ensures Sweep(Scan(s, 0, 0, 6, 6), 1, Subtract) == Scan([1, 1, 1, 1, 1, 1, 0], 6, 7, 6, 6)
  {
    TieInPlace(s, 0, 1);
    TieInPlace(s, 1, 1);
    TieInPlace(s, 2, 1);
    TieInPlace(s, 3, 1);
    var t, u := [1, 1, 1, 1, 1, 0, 1], [1, 1, 1, 1, 1, 1, 0];
    calc {
      Sweep(Scan(s, 4, 4, 6, 6), 1, Subtract);
      Sweep(Scan(s, 4, 5, 6, 6), 1, Subtract);
      { assert Exchange(s, 4, 5) == t; }
      Sweep(Scan(t, 5, 6, 6, 6), 1, Subtract);
      { assert Exchange(t, 5, 6) == u; }
      Sweep(Scan(u, 6, 7, 6, 6), 1, Subtract);
      Scan(u, 6, 7, 6, 6);
    }
  }

  lemma TiesDoNotFit(s: seq<int>)
    requires s == [1, 1, 1, 1, 0, 1, 1]
    ensures !TiesFit(s, Subtract)
  {
    hide Sweep;
    TiesSweep(s);
    assert Pivot(s, Subtract) == 1;
  }

  /** With ties the sort can fail: this segment is not clean, so the sort leaves it unsorted. */
  lemma TiesCanBreakIt(s: seq<int>)
    requires s == [1, 1, 1, 1, 0, 1, 1]
    ensures Ordering(Subtract) && !Clean(s, Subtract)
  {
    hide TiesFit, Part, Gather;
    TiesDoNotFit(s);
    CleanUnfolds(s, Subtract);
  }
}
