/** The nested counter maps of cg_merge.c: (file, function) to line to counts.  A map is the ascending list of
    bindings its WordFM stands for; counts are 64-bit and wrap. */
module ProfileMap {
  import opened MachineWords
  import opened Wrappers
  import opened WordFM
  import WordFMap

  type Counts = seq<nat>
  datatype FileFn = FileFn(fi: string, fn: string)
  type Inner = seq<(nat, Counts)>
  type Outer = seq<(FileFn, Inner)>

  // ---------------------------------------------------------------------------
  // Comparators

  function Strcmp(a: string, b: string): int {
    if a == [] then if b == [] then 0 else -1
    else if b == [] then 1
    else if a[0] < b[0] then -1
    else if a[0] > b[0] then 1
    else Strcmp(a[1..], b[1..])
  }

  function CmpFileFn(x: FileFn, y: FileFn): int {
    var r := Strcmp(x.fi, y.fi);
    if r == 0 then Strcmp(x.fn, y.fn) else r
  }

  function CmpLine(x: nat, y: nat): int {
    if x < y then -1 else if x > y then 1 else 0
  }

  lemma {:induction false} StrcmpPair(a: string, b: string)
    ensures Strcmp(a, b) == 0 <==> a == b
    ensures Strcmp(a, b) < 0 <==> Strcmp(b, a) > 0
  {
    if a != [] && b != [] && a[0] == b[0] {
      StrcmpPair(a[1..], b[1..]);
      assert a == [a[0]] + a[1..] && b == [b[0]] + b[1..];
    }
  }

  lemma {:induction false} StrcmpTrans(a: string, b: string, c: string)
    requires Strcmp(a, b) < 0 && Strcmp(b, c) < 0
    ensures Strcmp(a, c) < 0
  {
    if a != [] && b != [] && c != [] && a[0] == b[0] == c[0] {
      StrcmpTrans(a[1..], b[1..], c[1..]);
    }
  }

  /** Dictionary order: at the first difference a ends, or has the smaller character. */
  ghost predicate Before(a: string, b: string) {
    exists k :: 0 <= k <= |a| && k < |b| && a[..k] == b[..k] && (k == |a| || a[k] < b[k])
  }

  lemma {:induction false} StrcmpMeans(a: string, b: string)
    ensures Strcmp(a, b) < 0 <==> Before(a, b)
  {
    if a == [] {
      if b != [] {
        assert a[..0] == b[..0];
      }
    } else if b != [] {
      if a[0] < b[0] {
        assert a[..0] == b[..0];
      } else if a[0] == b[0] {
        StrcmpMeans(a[1..], b[1..]);
        if Before(a[1..], b[1..]) {
          var x, y := a[1..], b[1..];
          var k :| 0 <= k <= |x| && k < |y| && x[..k] == y[..k] && (k == |x| || x[k] < y[k]);
          assert a[..k + 1] == [a[0]] + x[..k] && b[..k + 1] == [b[0]] + y[..k];
          assert Before(a, b);
        }
        if Before(a, b) {
          var k :| 0 <= k <= |a| && k < |b| && a[..k] == b[..k] && (k == |a| || a[k] < b[k]);
          Shorter(a, b, k);
        }
      } else if Before(a, b) {
        var k :| 0 <= k <= |a| && k < |b| && a[..k] == b[..k] && (k == |a| || a[k] < b[k]);
        FirstSame(a, b, k);
      }
    }
  }

  lemma FirstSame(a: string, b: string, k: nat)
    requires 0 < k <= |a| && k < |b| && a[..k] == b[..k]
    ensures a[0] == b[0]
  {
    assert a[..k][0] == b[..k][0];
  }

  lemma Shorter(a: string, b: string, k: nat)
    requires 0 < k <= |a| && k < |b| && a[..k] == b[..k] && (k == |a| || a[k] < b[k])
    ensures Before(a[1..], b[1..])
  {
    assert a[1..][..k - 1] == a[..k][1..] && b[1..][..k - 1] == b[..k][1..];
  }

  /** Functions are ordered by file and, within a file, by name. */
  lemma FileFnMeans(x: FileFn, y: FileFn)
    ensures CmpFileFn(x, y) < 0 <==> Before(x.fi, y.fi) || (x.fi == y.fi && Before(x.fn, y.fn))
  {
    hide Before, Strcmp;
    StrcmpMeans(x.fi, y.fi);
    StrcmpMeans(x.fn, y.fn);
    StrcmpPair(x.fi, y.fi);
  }

  lemma FileFnOrder()
    ensures TotalOrder(CmpFileFn)
  {
    forall a, b, c
      ensures Lawful(CmpFileFn, a, b, c)
    {
      StrcmpPair(a.fi, b.fi);
      StrcmpPair(b.fi, a.fi);
      StrcmpPair(a.fn, b.fn);
      StrcmpPair(b.fi, c.fi);
      StrcmpPair(a.fi, c.fi);
      if CmpFileFn(a, b) < 0 && CmpFileFn(b, c) < 0 {
        if Strcmp(a.fi, b.fi) < 0 && Strcmp(b.fi, c.fi) < 0 {
          StrcmpTrans(a.fi, b.fi, c.fi);
        } else if Strcmp(a.fi, b.fi) == 0 && Strcmp(b.fi, c.fi) == 0 {
          StrcmpTrans(a.fn, b.fn, c.fn);
        }
      }
    }
  }

  lemma LineOrder()
    ensures TotalOrder(CmpLine)
  {
    forall a, b, c
      ensures Lawful(CmpLine, a, b, c)
    {
    }
  }

  // ---------------------------------------------------------------------------
  // Binding lists

  lemma FindPut<K(!new), V>(s: seq<(K, V)>, k: K, v: V, cmp: (K, K) -> int, j: K)
    requires TotalOrder(cmp) && Ascending(s, cmp)
    ensures Find(Put(s, k, v, cmp), j) == if j == k then Some(v) else Find(s, j)
  {
    PutMap(s, k, v, cmp);
    WordFMap.FindMap(s, j);
    WordFMap.FindMap(Put(s, k, v, cmp), j);
  }

  /** A key above all others goes to the end. */
  lemma {:induction false} PutLast<K(!new), V>(s: seq<(K, V)>, k: K, v: V, cmp: (K, K) -> int)
    requires forall p :: p in s ==> cmp(p.0, k) < 0
    ensures Put(s, k, v, cmp) == s + [(k, v)]
  {
    if s != [] {
      assert s[0] in s;
      PutLast(s[1..], k, v, cmp);
      assert s == [s[0]] + s[1..];
    }
  }

  /** The binding at the end is replaced in place. */
  lemma {:induction false} PutOverLast<K(!new), V>(s: seq<(K, V)>, k: K, u: V, v: V, cmp: (K, K) -> int)
    requires cmp(k, k) == 0 && forall p :: p in s ==> cmp(p.0, k) < 0
    ensures Put(s + [(k, u)], k, v, cmp) == s + [(k, v)]
  {
    var w := s + [(k, u)];
    if s != [] {
      assert s[0] in s && w[0] == s[0] && w[1..] == s[1..] + [(k, u)];
      PutOverLast(s[1..], k, u, v, cmp);
      assert s == [s[0]] + s[1..];
    } else {
      assert w == [(k, u)] && w[1..] == [];
    }
  }

  lemma {:induction false} FindLast<K(!new), V>(s: seq<(K, V)>, k: K, u: V)
    requires forall p :: p in s ==> p.0 != k
    ensures Find(s + [(k, u)], k) == Some(u) && Find(s, k) == None
  {
    if s != [] {
      assert (s + [(k, u)])[1..] == s[1..] + [(k, u)];
      FindLast(s[1..], k, u);
    }
  }

  lemma {:induction false} FindIn<K(!new), V>(s: seq<(K, V)>, k: K)
    ensures Find(s, k).Some? ==> (k, Find(s, k).value) in s
    ensures Find(s, k).None? ==> forall p :: p in s ==> p.0 != k
  {
    if s != [] {
      FindIn(s[1..], k);
    }
  }

  /** Ascending lists that find the same are the same. */
  lemma {:induction false} SameFinds<K(!new), V>(s: seq<(K, V)>, t: seq<(K, V)>, cmp: (K, K) -> int)
    requires TotalOrder(cmp) && Ascending(s, cmp) && Ascending(t, cmp)
    requires forall k :: Find(s, k) == Find(t, k)
    ensures s == t
  {
    if s != [] {
      assert Find(s, s[0].0) == Find(t, s[0].0);
    }
    if t != [] {
      assert Find(s, t[0].0) == Find(t, t[0].0);
    }
    if s != [] && t != [] {
      FirstIsSame(s, t, cmp);
      var x := s[0].0;
      forall k
        ensures Find(s[1..], k) == Find(t[1..], k)
      {
        assert Find(s, k) == Find(t, k);
        if k == x {
          NotInTail(s, cmp);
          NotInTail(t, cmp);
        }
      }
      SameFinds(s[1..], t[1..], cmp);
      assert s == [s[0]] + s[1..] && t == [t[0]] + t[1..];
    }
  }

  lemma NotInTail<K(!new), V>(s: seq<(K, V)>, cmp: (K, K) -> int)
    requires TotalOrder(cmp) && Ascending(s, cmp) && s != []
    ensures Find(s[1..], s[0].0) == None
  {
    FindIn(s[1..], s[0].0);
    assert Lawful(cmp, s[0].0, s[0].0, s[0].0);
  }

  lemma FirstIsSame<K(!new), V>(s: seq<(K, V)>, t: seq<(K, V)>, cmp: (K, K) -> int)
    requires TotalOrder(cmp) && Ascending(s, cmp) && Ascending(t, cmp) && s != [] && t != []
    requires forall k :: Find(s, k) == Find(t, k)
    ensures s[0] == t[0]
  {
    var x, y := s[0].0, t[0].0;
    assert Find(s, x) == Find(t, x) && Find(s, y) == Find(t, y);
    FindIn(t, x);
    FindIn(s, y);
    assert Lawful(cmp, x, y, x) && Lawful(cmp, x, x, x) && Lawful(cmp, y, y, y);
  }

  // ---------------------------------------------------------------------------
  // Adding counts

  predicate Sized(inner: Inner, n: nat) {
    forall i :: 0 <= i < |inner| ==> |inner[i].1| == n
  }

  /** Well-formed: ascending without repeats, every row with n counts, no function without rows */
  ghost predicate GoodInner(inner: Inner, n: nat) {
    Ascending(inner, CmpLine) && Sized(inner, n)
  }

  ghost predicate Good(outer: Outer, n: nat) {
    && Ascending(outer, CmpFileFn)
    && forall i :: 0 <= i < |outer| ==> outer[i].1 != [] && GoodInner(outer[i].1, n)
  }

  function AddCounts(a: Counts, b: Counts): (r: Counts)
    requires |a| == |b|
    ensures |r| == |a|
  {
    seq(|a|, i requires 0 <= i < |a| => (a[i] + b[i]) % W64)
  }

  /** addCountsToMap */
  function AddToInner(inner: Inner, line: nat, c: Counts): Inner
    requires Sized(inner, |c|)
  {
    FindIn(inner, line);
    match Find(inner, line)
    case None => Put(inner, line, c, CmpLine)
    case Some(was) => Put(inner, line, AddCounts(was, c), CmpLine)
  }

  function InnerAt(outer: Outer, key: FileFn): Inner {
    match Find(outer, key)
    case None => []
    case Some(inner) => inner
  }

  lemma InnerGood(outer: Outer, key: FileFn, n: nat)
    requires Good(outer, n)
    ensures GoodInner(InnerAt(outer, key), n)
    ensures Find(outer, key).Some? ==> Find(outer, key).value != []
  {
    FindIn(outer, key);
  }

  /** One counts line, as handle_counts enters it */
  function AddRow(outer: Outer, key: FileFn, line: nat, c: Counts): Outer
    requires Good(outer, |c|)
  {
    InnerGood(outer, key, |c|);
    Put(outer, key, AddToInner(InnerAt(outer, key), line, c), CmpFileFn)
  }

  /** The counts of one line of one function */
  function Row(outer: Outer, key: FileFn, line: nat): Option<Counts> {
    Find(InnerAt(outer, key), line)
  }

  lemma {:induction false} PutSized(inner: Inner, line: nat, c: Counts)
    requires Sized(inner, |c|)
    ensures Sized(Put(inner, line, c, CmpLine), |c|) && Put(inner, line, c, CmpLine) != []
  {
    if inner != [] && CmpLine(inner[0].0, line) < 0 {
      assert Sized(inner[1..], |c|);
      PutSized(inner[1..], line, c);
    }
  }

  lemma AddToInnerGood(inner: Inner, line: nat, c: Counts)
    requires GoodInner(inner, |c|)
    ensures GoodInner(AddToInner(inner, line, c), |c|) && AddToInner(inner, line, c) != []
  {
    LineOrder();
    FindIn(inner, line);
    var v := if Find(inner, line).None? then c else AddCounts(Find(inner, line).value, c);
    PutAscending(inner, line, v, CmpLine);
    PutSized(inner, line, v);
  }

  lemma {:induction false} PutGood(outer: Outer, key: FileFn, inner: Inner, n: nat)
    requires Good(outer, n) && inner != [] && GoodInner(inner, n)
    ensures Good(Put(outer, key, inner, CmpFileFn), n)
  {
    FileFnOrder();
    PutAscending(outer, key, inner, CmpFileFn);
    PutValues(outer, key, inner, CmpFileFn);
  }

  /** Put adds no value but the new one. */
  lemma {:induction false} PutValues<K(!new), V>(s: seq<(K, V)>, k: K, v: V, cmp: (K, K) -> int)
    ensures forall p :: p in Put(s, k, v, cmp) ==> p.1 == v || p in s
  {
    if s != [] && cmp(s[0].0, k) < 0 {
      PutValues(s[1..], k, v, cmp);
    }
  }

  lemma AddRowGood(outer: Outer, key: FileFn, line: nat, c: Counts)
    requires Good(outer, |c|)
    ensures Good(AddRow(outer, key, line, c), |c|)
  {
    InnerGood(outer, key, |c|);
    AddToInnerGood(InnerAt(outer, key), line, c);
    PutGood(outer, key, AddToInner(InnerAt(outer, key), line, c), |c|);
  }

  /** Pointwise addition of rows that may be missing */
  function Plus(a: Option<Counts>, b: Option<Counts>): Option<Counts>
    requires a.Some? && b.Some? ==> |a.value| == |b.value|
  {
    if a.None? then b else if b.None? then a else Some(AddCounts(a.value, b.value))
  }

  lemma RowSize(outer: Outer, key: FileFn, line: nat, n: nat)
    requires Good(outer, n)
    ensures Row(outer, key, line).Some? ==> |Row(outer, key, line).value| == n
  {
    InnerGood(outer, key, n);
    FindIn(InnerAt(outer, key), line);
  }

  lemma AddToInnerMeans(inner: Inner, line: nat, c: Counts, l: nat)
    requires GoodInner(inner, |c|)
    ensures Find(inner, l).Some? ==> |Find(inner, l).value| == |c|
    ensures Find(AddToInner(inner, line, c), l) == if l == line then Plus(Find(inner, l), Some(c)) else Find(inner, l)
  {
    LineOrder();
    FindIn(inner, line);
    FindIn(inner, l);
    var v := if Find(inner, line).None? then c else AddCounts(Find(inner, line).value, c);
    FindPut(inner, line, v, CmpLine, l);
  }

  /** A counts line adds its counts to its own row and touches no other. */
  lemma AddRowMeans(outer: Outer, key: FileFn, line: nat, c: Counts, k: FileFn, l: nat)
    requires Good(outer, |c|)
    ensures Row(outer, k, l).Some? ==> |Row(outer, k, l).value| == |c|
    ensures Row(AddRow(outer, key, line, c), k, l) ==
      if k == key && l == line then Plus(Row(outer, k, l), Some(c)) else Row(outer, k, l)
  {
    RowSize(outer, k, l, |c|);
    InnerGood(outer, key, |c|);
    FileFnOrder();
    FindPut(outer, key, AddToInner(InnerAt(outer, key), line, c), CmpFileFn, k);
    AddToInnerMeans(InnerAt(outer, key), line, c, l);
  }

  // ---------------------------------------------------------------------------
  // Merging

  /** The inner loop of the merge: every row of s is added into d. */
  function MergeInner(d: Inner, s: Inner, n: nat): Inner
    requires GoodInner(d, n) && GoodInner(s, n)
    decreases |s|
  {
    if s == [] then d
    else
      AddToInnerGood(d, s[0].0, s[0].1);
      MergeInner(AddToInner(d, s[0].0, s[0].1), s[1..], n)
  }

  /** What a (file, function) of the source becomes: a copy, or both merged */
  function MergedInner(d: Outer, key: FileFn, inner: Inner, n: nat): Inner
    requires Good(d, n) && GoodInner(inner, n)
  {
    InnerGood(d, key, n);
    if Find(d, key).None? then inner else MergeInner(InnerAt(d, key), inner, n)
  }

  /** The outer loop */
  function MergeOuter(d: Outer, s: Outer, n: nat): Outer
    requires Good(d, n) && Good(s, n)
    decreases |s|
  {
    if s == [] then d
    else
      MergedInnerGood(d, s[0].0, s[0].1, n);
      PutGood(d, s[0].0, MergedInner(d, s[0].0, s[0].1, n), n);
      MergeOuter(Put(d, s[0].0, MergedInner(d, s[0].0, s[0].1, n), CmpFileFn), s[1..], n)
  }

  lemma {:induction false} MergeInnerGood(d: Inner, s: Inner, n: nat)
    requires GoodInner(d, n) && GoodInner(s, n)
    ensures GoodInner(MergeInner(d, s, n), n) && (d != [] || s != [] ==> MergeInner(d, s, n) != [])
    decreases |s|
  {
    if s != [] {
      AddToInnerGood(d, s[0].0, s[0].1);
      MergeInnerGood(AddToInner(d, s[0].0, s[0].1), s[1..], n);
    }
  }

  lemma MergedInnerGood(d: Outer, key: FileFn, inner: Inner, n: nat)
    requires Good(d, n) && GoodInner(inner, n) && inner != []
    ensures GoodInner(MergedInner(d, key, inner, n), n) && MergedInner(d, key, inner, n) != []
  {
    InnerGood(d, key, n);
    MergeInnerGood(InnerAt(d, key), inner, n);
  }

  lemma {:induction false} MergeOuterGood(d: Outer, s: Outer, n: nat)
    requires Good(d, n) && Good(s, n)
    ensures Good(MergeOuter(d, s, n), n)
    decreases |s|
  {
    if s != [] {
      MergedInnerGood(d, s[0].0, s[0].1, n);
      PutGood(d, s[0].0, MergedInner(d, s[0].0, s[0].1, n), n);
      MergeOuterGood(Put(d, s[0].0, MergedInner(d, s[0].0, s[0].1, n), CmpFileFn), s[1..], n);
    }
  }

  predicate RowsOf(a: Option<Counts>, n: nat) {
    a.Some? ==> |a.value| == n
  }

  lemma {:induction false} MergeInnerMeans(d: Inner, s: Inner, n: nat, l: nat)
    requires GoodInner(d, n) && GoodInner(s, n)
    ensures RowsOf(Find(d, l), n) && RowsOf(Find(s, l), n)
    ensures Find(MergeInner(d, s, n), l) == Plus(Find(d, l), Find(s, l))
    decreases |s|
  {
    FindIn(d, l);
    FindIn(s, l);
    if s != [] {
      var line, c := s[0].0, s[0].1;
      AddToInnerGood(d, line, c);
      AddToInnerMeans(d, line, c, l);
      MergeInnerMeans(AddToInner(d, line, c), s[1..], n, l);
      LineOrder();
      if l == line {
        NotInTail(s, CmpLine);
      }
    }
  }

  /** Merging is the pointwise sum of the rows of both. */
  lemma {:induction false} MergeMeans(d: Outer, s: Outer, n: nat, k: FileFn, l: nat)
    requires Good(d, n) && Good(s, n)
    ensures RowsOf(Row(d, k, l), n) && RowsOf(Row(s, k, l), n)
    ensures Row(MergeOuter(d, s, n), k, l) == Plus(Row(d, k, l), Row(s, k, l))
    decreases |s|
  {
    RowSize(d, k, l, n);
    RowSize(s, k, l, n);
    if s != [] {
      var key, inner := s[0].0, s[0].1;
      var m := MergedInner(d, key, inner, n);
      MergedInnerGood(d, key, inner, n);
      PutGood(d, key, m, n);
      FileFnOrder();
      FindPut(d, key, m, CmpFileFn, k);
      MergeMeans(Put(d, key, m, CmpFileFn), s[1..], n, k, l);
      if k == key {
        NotInTail(s, CmpFileFn);
        InnerGood(d, key, n);
        MergeInnerMeans(InnerAt(d, key), inner, n, l);
      }
    }
  }

  lemma PlusCommutes(a: Option<Counts>, b: Option<Counts>, n: nat)
    requires RowsOf(a, n) && RowsOf(b, n)
    ensures Plus(a, b) == Plus(b, a)
  {
    if a.Some? && b.Some? {
      assert AddCounts(a.value, b.value) == AddCounts(b.value, a.value);
    }
  }

  lemma AddModAssoc(x: nat, y: nat, z: nat)
    ensures ((x + y) % W64 + z) % W64 == (x + (y + z) % W64) % W64
  {
    ModAdd(x + y, z, W64);
    ModAdd(y + z, x, W64);
  }

  lemma PlusAssociates(a: Option<Counts>, b: Option<Counts>, c: Option<Counts>, n: nat)
    requires RowsOf(a, n) && RowsOf(b, n) && RowsOf(c, n)
    ensures Plus(Plus(a, b), c) == Plus(a, Plus(b, c))
  {
    if a.Some? && b.Some? && c.Some? {
      forall i | 0 <= i < n
        ensures AddCounts(AddCounts(a.value, b.value), c.value)[i] == AddCounts(a.value, AddCounts(b.value, c.value))[i]
      {
        AddModAssoc(a.value[i], b.value[i], c.value[i]);
      }
      assert AddCounts(AddCounts(a.value, b.value), c.value) == AddCounts(a.value, AddCounts(b.value, c.value));
    }
  }

  /** Maps with the same rows are the same. */
  lemma SameRows(a: Outer, b: Outer, n: nat)
    requires Good(a, n) && Good(b, n) && forall k, l :: Row(a, k, l) == Row(b, k, l)
    ensures a == b
  {
    FileFnOrder();
    LineOrder();
    forall k
      ensures Find(a, k) == Find(b, k)
    {
      InnerGood(a, k, n);
      InnerGood(b, k, n);
      forall l
        ensures Find(InnerAt(a, k), l) == Find(InnerAt(b, k), l)
      {
        assert Row(a, k, l) == Row(b, k, l);
      }
      SameFinds(InnerAt(a, k), InnerAt(b, k), CmpLine);
    }
    SameFinds(a, b, CmpFileFn);
  }

  /** The order of two files does not matter. */
  lemma MergeCommutes(a: Outer, b: Outer, n: nat)
    requires Good(a, n) && Good(b, n)
    ensures MergeOuter(a, b, n) == MergeOuter(b, a, n)
  {
    MergeOuterGood(a, b, n);
    MergeOuterGood(b, a, n);
    forall k, l
      ensures Row(MergeOuter(a, b, n), k, l) == Row(MergeOuter(b, a, n), k, l)
    {
      MergeMeans(a, b, n, k, l);
      MergeMeans(b, a, n, k, l);
      PlusCommutes(Row(a, k, l), Row(b, k, l), n);
    }
    SameRows(MergeOuter(a, b, n), MergeOuter(b, a, n), n);
  }

  /** Nor does the grouping: any number of files can be merged in any order. */
  lemma MergeAssociates(a: Outer, b: Outer, c: Outer, n: nat)
    requires Good(a, n) && Good(b, n) && Good(c, n)
    ensures Good(MergeOuter(a, b, n), n) && Good(MergeOuter(b, c, n), n)
    ensures MergeOuter(MergeOuter(a, b, n), c, n) == MergeOuter(a, MergeOuter(b, c, n), n)
  {
    hide MergeOuter, Good, Row;
    MergeOuterGood(a, b, n);
    MergeOuterGood(b, c, n);
    var ab, bc := MergeOuter(a, b, n), MergeOuter(b, c, n);
    MergeOuterGood(ab, c, n);
    MergeOuterGood(a, bc, n);
    forall k, l
      ensures Row(MergeOuter(ab, c, n), k, l) == Row(MergeOuter(a, bc, n), k, l)
    {
      MergeMeans(a, b, n, k, l);
      MergeMeans(ab, c, n, k, l);
      MergeMeans(b, c, n, k, l);
      MergeMeans(a, bc, n, k, l);
      PlusAssociates(Row(a, k, l), Row(b, k, l), Row(c, k, l), n);
    }
    SameRows(MergeOuter(ab, c, n), MergeOuter(a, bc, n), n);
  }

  /** The first file and then the others, merged in one after the other */
  ghost function MergeAll(d: Outer, files: seq<Outer>, n: nat): (r: Outer)
    requires Good(d, n) && forall i :: 0 <= i < |files| ==> Good(files[i], n)
    ensures Good(r, n)
    decreases |files|
  {
    if files == [] then d
    else
      MergeOuterGood(d, files[0], n);
      MergeAll(MergeOuter(d, files[0], n), files[1..], n)
  }

  lemma MergeSwap(d: Outer, a: Outer, b: Outer, n: nat)
    requires Good(d, n) && Good(a, n) && Good(b, n)
    ensures Good(MergeOuter(d, a, n), n) && Good(MergeOuter(d, b, n), n)
    ensures MergeOuter(MergeOuter(d, a, n), b, n) == MergeOuter(MergeOuter(d, b, n), a, n)
  {
    hide MergeOuter, Good;
    MergeAssociates(d, a, b, n);
    MergeCommutes(a, b, n);
    MergeAssociates(d, b, a, n);
  }

  /** Any file can be merged in first. */
  lemma {:induction false} MergeFirst(d: Outer, p: seq<Outer>, x: Outer, q: seq<Outer>, n: nat)
    requires Good(d, n) && Good(x, n) && Good(MergeOuter(d, x, n), n)
    requires forall i :: 0 <= i < |p| ==> Good(p[i], n)
    requires forall i :: 0 <= i < |q| ==> Good(q[i], n)
    ensures MergeAll(d, p + [x] + q, n) == MergeAll(MergeOuter(d, x, n), p + q, n)
    decreases |p|
  {
    hide MergeOuter, Good;
    if p == [] {
      assert p + [x] + q == [x] + q && ([x] + q)[1..] == q && p + q == q;
    } else {
      assert (p + [x] + q)[1..] == p[1..] + [x] + q && (p + q)[1..] == p[1..] + q;
      MergeOuterGood(d, p[0], n);
      var m := MergeOuter(d, p[0], n);
      MergeOuterGood(m, x, n);
      MergeFirst(m, p[1..], x, q, n);
      MergeSwap(d, p[0], x, n);
    }
  }

  /** The result does not depend on the order of the files. */
  lemma {:induction false} MergeOrder(d: Outer, xs: seq<Outer>, ys: seq<Outer>, n: nat)
    requires Good(d, n) && (forall i :: 0 <= i < |xs| ==> Good(xs[i], n)) && multiset(xs) == multiset(ys)
    ensures forall i :: 0 <= i < |ys| ==> Good(ys[i], n)
    ensures MergeAll(d, xs, n) == MergeAll(d, ys, n)
    decreases |xs|
  {
    hide MergeOuter, Good;
    forall i | 0 <= i < |ys|
      ensures Good(ys[i], n)
    {
      assert ys[i] in multiset(xs);
    }
    assert |multiset(xs)| == |multiset(ys)|;
    if xs != [] {
      var x := xs[0];
      var k := TakeOut(xs, ys);
      var p, q := ys[..k], ys[k + 1..];
      assert ys == p + [x] + q;
      MergeOuterGood(d, x, n);
      MergeOrder(MergeOuter(d, x, n), xs[1..], p + q, n);
      MergeFirst(d, p, x, q, n);
    }
  }

  lemma TakeOut<T>(xs: seq<T>, ys: seq<T>) returns (k: nat)
    requires xs != [] && multiset(xs) == multiset(ys)
    ensures k < |ys| && ys[k] == xs[0] && multiset(xs[1..]) == multiset(ys[..k] + ys[k + 1..])
  {
    var x := xs[0];
    assert xs == [x] + xs[1..];
    assert x in multiset(ys);
    k :| 0 <= k < |ys| && ys[k] == x;
    assert ys == ys[..k] + [x] + ys[k + 1..];
    assert multiset(ys[..k] + ys[k + 1..]) == multiset(ys) - multiset{x};
    assert multiset(xs[1..]) == multiset(xs) - multiset{x};
  }

  /** Starting from the first file is starting from nothing. */
  lemma MergeNothing(a: Outer, n: nat)
    requires Good(a, n)
    ensures Good([], n) && MergeOuter([], a, n) == a
  {
    MergeOuterGood([], a, n);
    forall k, l
      ensures Row(MergeOuter([], a, n), k, l) == Row(a, k, l)
    {
      MergeMeans([], a, n, k, l);
    }
    SameRows(MergeOuter([], a, n), a, n);
  }

  /** Whichever file comes first, merging the others into it gives the same map. */
  lemma MergeAnyOrder(xs: seq<Outer>, ys: seq<Outer>, n: nat)
    requires xs != [] && (forall i :: 0 <= i < |xs| ==> Good(xs[i], n)) && multiset(xs) == multiset(ys)
    ensures ys != [] && forall i :: 0 <= i < |ys| ==> Good(ys[i], n)
    ensures MergeAll(xs[0], xs[1..], n) == MergeAll(ys[0], ys[1..], n)
  {
    hide MergeOuter, Good;
    MergeNothing(xs[0], n);
    MergeOrder([], xs, ys, n);
    assert |multiset(xs)| == |xs| && |multiset(ys)| == |ys|;
    MergeNothing(ys[0], n);
  }

  // ---------------------------------------------------------------------------
  // Totals

  function InnerTotal(inner: Inner, n: nat, e: nat): nat
    requires Sized(inner, n) && e < n
  {
    if inner == [] then 0 else inner[0].1[e] + InnerTotal(inner[1..], n, e)
  }

  ghost function Total(outer: Outer, n: nat, e: nat): nat
    requires (forall i :: 0 <= i < |outer| ==> Sized(outer[i].1, n)) && e < n
  {
    if outer == [] then 0 else InnerTotal(outer[0].1, n, e) + Total(outer[1..], n, e)
  }

  function CountAt(row: Option<Counts>, e: nat): nat
    requires row.Some? ==> e < |row.value|
  {
    if row.None? then 0 else row.value[e]
  }

  /** Replacing a row replaces its counts in the total. */
  lemma {:induction false} InnerTotalPut(inner: Inner, line: nat, v: Counts, e: nat)
    requires GoodInner(inner, |v|) && e < |v|
    ensures RowsOf(Find(inner, line), |v|) && Sized(Put(inner, line, v, CmpLine), |v|)
    ensures InnerTotal(Put(inner, line, v, CmpLine), |v|, e) + CountAt(Find(inner, line), e) ==
      InnerTotal(inner, |v|, e) + v[e]
  {
    var u := Put(inner, line, v, CmpLine);
    PutSized(inner, line, v);
    FindIn(inner, line);
    if inner != [] {
      if CmpLine(inner[0].0, line) < 0 {
        InnerTotalPut(inner[1..], line, v, e);
        assert u[1..] == Put(inner[1..], line, v, CmpLine);
      } else if CmpLine(inner[0].0, line) == 0 {
        assert u[1..] == inner[1..];
      } else {
        assert u[1..] == inner;
      }
    }
  }

  lemma AddToInnerTotal(inner: Inner, line: nat, c: Counts, e: nat)
    requires GoodInner(inner, |c|) && e < |c|
    ensures GoodInner(AddToInner(inner, line, c), |c|)
    ensures InnerTotal(AddToInner(inner, line, c), |c|, e) % W64 == (InnerTotal(inner, |c|, e) + c[e]) % W64
  {
    AddToInnerGood(inner, line, c);
    FindIn(inner, line);
    var found := Find(inner, line);
    var v := if found.None? then c else AddCounts(found.value, c);
    InnerTotalPut(inner, line, v, e);
    if found.Some? {
      var o := found.value[e];
      InnerTotalAtLeast(inner, line, |c|, e);
      ModAdd(o + c[e], InnerTotal(inner, |c|, e) - o, W64);
    }
  }

  lemma {:induction false} InnerTotalAtLeast(inner: Inner, line: nat, n: nat, e: nat)
    requires Sized(inner, n) && e < n
    ensures RowsOf(Find(inner, line), n) && CountAt(Find(inner, line), e) <= InnerTotal(inner, n, e)
  {
    if inner != [] {
      InnerTotalAtLeast(inner[1..], line, n, e);
    }
  }

  lemma GoodSized(outer: Outer, n: nat)
    requires Good(outer, n)
    ensures forall i :: 0 <= i < |outer| ==> Sized(outer[i].1, n)
  {
  }

  lemma {:induction false} TotalPut(outer: Outer, key: FileFn, inner: Inner, n: nat, e: nat)
    requires Good(outer, n) && inner != [] && GoodInner(inner, n) && e < n
    ensures GoodInner(InnerAt(outer, key), n) && Good(Put(outer, key, inner, CmpFileFn), n)
    ensures Total(Put(outer, key, inner, CmpFileFn), n, e) + InnerTotal(InnerAt(outer, key), n, e) ==
      Total(outer, n, e) + InnerTotal(inner, n, e)
  {
    var u := Put(outer, key, inner, CmpFileFn);
    PutGood(outer, key, inner, n);
    InnerGood(outer, key, n);
    FileFnOrder();
    if outer != [] {
      var x := outer[0].0;
      assert Lawful(CmpFileFn, x, key, key);
      if CmpFileFn(x, key) < 0 {
        TotalPut(outer[1..], key, inner, n, e);
        assert u[1..] == Put(outer[1..], key, inner, CmpFileFn);
      } else if CmpFileFn(x, key) == 0 {
        assert u[1..] == outer[1..];
      } else {
        assert u[1..] == outer;
        FindIn(outer, key);
        if Find(outer, key).Some? {
          KeyNotBelow(outer, key);
        }
      }
    }
  }

  lemma KeyNotBelow(outer: Outer, key: FileFn)
    requires Ascending(outer, CmpFileFn) && outer != [] && CmpFileFn(outer[0].0, key) > 0
    ensures Find(outer, key) == None
  {
    FileFnOrder();
    FindIn(outer, key);
    assert outer == [] + [outer[0]] + outer[1..];
    FindSplit([], outer[0], outer[1..], key, CmpFileFn);
  }

  /** A counts line adds its counts to the totals. */
  lemma AddRowTotal(outer: Outer, key: FileFn, line: nat, c: Counts, e: nat)
    requires Good(outer, |c|) && e < |c|
    ensures Good(AddRow(outer, key, line, c), |c|)
    ensures Total(AddRow(outer, key, line, c), |c|, e) % W64 == (Total(outer, |c|, e) + c[e]) % W64
  {
    var n, was := |c|, InnerAt(outer, key);
    InnerGood(outer, key, n);
    AddToInnerGood(was, line, c);
    var now := AddToInner(was, line, c);
    AddToInnerTotal(was, line, c, e);
    TotalPut(outer, key, now, n, e);
    TotalAtLeast(outer, key, n, e);
    Swapped(Total(outer, n, e), InnerTotal(was, n, e), InnerTotal(now, n, e), c[e]);
  }

  /** x with a part u replaced by v, where v is congruent to u + c, is congruent to x + c. */
  lemma Swapped(x: nat, u: nat, v: nat, c: nat)
    requires u <= x && v % W64 == (u + c) % W64
    ensures (x - u + v) % W64 == (x + c) % W64
  {
    ModAdd(v, x - u, W64);
    ModAdd(u + c, x - u, W64);
  }

  lemma {:induction false} TotalAtLeast(outer: Outer, key: FileFn, n: nat, e: nat)
    requires Good(outer, n) && e < n
    ensures GoodInner(InnerAt(outer, key), n) && InnerTotal(InnerAt(outer, key), n, e) <= Total(outer, n, e)
  {
    InnerGood(outer, key, n);
    if outer != [] {
      TotalAtLeast(outer[1..], key, n, e);
    }
  }

  lemma {:induction false} MergeInnerTotal(d: Inner, s: Inner, n: nat, e: nat)
    requires GoodInner(d, n) && GoodInner(s, n) && e < n
    ensures GoodInner(MergeInner(d, s, n), n)
    ensures InnerTotal(MergeInner(d, s, n), n, e) % W64 == (InnerTotal(d, n, e) + InnerTotal(s, n, e)) % W64
    decreases |s|
  {
    hide AddToInner, Find, Put;
    MergeInnerGood(d, s, n);
    if s != [] {
      var c := s[0].1;
      var m := AddToInner(d, s[0].0, c);
      AddToInnerTotal(d, s[0].0, c, e);
      MergeInnerTotal(m, s[1..], n, e);
      var rest := InnerTotal(s[1..], n, e);
      assert InnerTotal(s, n, e) == c[e] + rest;
      hide InnerTotal;
      ModAdd(InnerTotal(m, n, e), rest, W64);
      ModAdd(InnerTotal(d, n, e) + c[e], rest, W64);
    }
  }

  lemma MergeOneTotal(d: Outer, key: FileFn, inner: Inner, n: nat, e: nat)
    requires Good(d, n) && GoodInner(inner, n) && inner != [] && e < n
    ensures var z := Put(d, key, MergedInner(d, key, inner, n), CmpFileFn);
      Good(z, n) && Total(z, n, e) % W64 == (Total(d, n, e) + InnerTotal(inner, n, e)) % W64
  {
    hide Total, Put, Find, MergeInner;
    var was, m := InnerAt(d, key), MergedInner(d, key, inner, n);
    MergedInnerGood(d, key, inner, n);
    TotalPut(d, key, m, n, e);
    TotalAtLeast(d, key, n, e);
    if Find(d, key).Some? {
      MergeInnerTotal(was, inner, n, e);
    }
    Swapped(Total(d, n, e), InnerTotal(was, n, e), InnerTotal(m, n, e), InnerTotal(inner, n, e));
  }

  /** Merging adds the totals. */
  lemma {:induction false} MergeTotal(d: Outer, s: Outer, n: nat, e: nat)
    requires Good(d, n) && Good(s, n) && e < n
    ensures Good(MergeOuter(d, s, n), n)
    ensures Total(MergeOuter(d, s, n), n, e) % W64 == (Total(d, n, e) + Total(s, n, e)) % W64
    decreases |s|
  {
    hide Put, MergedInner, InnerTotal, Find;
    MergeOuterGood(d, s, n);
    if s != [] {
      var key, inner := s[0].0, s[0].1;
      var z := Put(d, key, MergedInner(d, key, inner, n), CmpFileFn);
      MergeOneTotal(d, key, inner, n, e);
      MergeTotal(z, s[1..], n, e);
      var rest := Total(s[1..], n, e);
      ModAdd(Total(z, n, e), rest, W64);
      ModAdd(Total(d, n, e) + InnerTotal(inner, n, e), rest, W64);
      assert Total(s, n, e) == InnerTotal(inner, n, e) + rest;
    }
  }
}
