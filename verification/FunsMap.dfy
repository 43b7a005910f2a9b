/** Lists of functions with their inner maps on the heap, and what changing one of them leaves alone. */
module FunsMap {
  import opened Wrappers
  import opened WordFM
  import opened ProfileMap
  import opened CountsMap

  type Fun = (FileFn, InnerMap)

  ghost function Maps(s: seq<Fun>): set<InnerMap> {
    set p | p in s :: p.1
  }

  /** The functions and rows a list of bindings stands for */
  ghost function FunVals(s: seq<Fun>): (r: Outer)
    reads Maps(s)
    ensures |r| == |s|
  {
    if s == [] then [] else [(s[0].0, s[0].1.rows)] + FunVals(s[1..])
  }

  lemma {:induction false} FunValsAt(s: seq<Fun>, i: nat)
    requires i < |s|
    ensures FunVals(s)[i] == (s[i].0, s[i].1.rows)
  {
    if i > 0 {
      FunValsAt(s[1..], i - 1);
    }
  }

  lemma {:induction false} FunValsFind(s: seq<Fun>, k: FileFn)
    ensures Find(FunVals(s), k) == match Find(s, k) case None => None case Some(m) => Some(m.rows)
  {
    if s != [] {
      FunValsFind(s[1..], k);
      assert FunVals(s)[1..] == FunVals(s[1..]);
    }
  }

  lemma {:induction false} FunValsPut(s: seq<Fun>, k: FileFn, m: InnerMap)
    ensures FunVals(Put(s, k, m, CmpFileFn)) == Put(FunVals(s), k, m.rows, CmpFileFn)
  {
    hide CmpFileFn;
    var u, r := Put(s, k, m, CmpFileFn), FunVals(s);
    if s != [] {
      assert r[1..] == FunVals(s[1..]) && r[0].0 == s[0].0;
      if CmpFileFn(s[0].0, k) < 0 {
        FunValsPut(s[1..], k, m);
        assert u[1..] == Put(s[1..], k, m, CmpFileFn);
      } else if CmpFileFn(s[0].0, k) > 0 {
        assert u[1..] == s;
      } else {
        assert u[1..] == s[1..];
      }
    }
  }

  /** A new key goes between two parts of the list. */
  lemma {:induction false} PutSplit<K(!new), V>(s: seq<(K, V)>, k: K, v: V, cmp: (K, K) -> int) returns (i: nat)
    requires TotalOrder(cmp) && Ascending(s, cmp) && Find(s, k).None?
    ensures i <= |s| && Put(s, k, v, cmp) == s[..i] + [(k, v)] + s[i..]
  {
    if s == [] {
      i := 0;
    } else {
      assert Lawful(cmp, s[0].0, k, k);
      if cmp(s[0].0, k) > 0 {
        i := 0;
      } else {
        var j := PutSplit(s[1..], k, v, cmp);
        i := j + 1;
        assert s[..i] == [s[0]] + s[1..][..j] && s[i..] == s[1..][j..];
      }
    }
  }

  /** All maps are valid, have n counts per row, lie within `feet`, and share nothing. */
  ghost predicate MapsOk(s: seq<Fun>, n: nat, feet: set<object>)
    reads feet
  {
    && (forall i :: 0 <= i < |s| ==> MapOk(s[i].1, n, feet))
    && (forall i, j :: 0 <= i < j < |s| ==> s[i].1 in feet && s[j].1 in feet && s[i].1.repr !! s[j].1.repr)
  }

  ghost predicate MapOk(m: InnerMap, n: nat, feet: set<object>)
    reads feet
  {
    m in feet && m.repr <= feet && m.Valid() && m.n == n
  }

  /** Without one of its maps a list lies outside that map's footprint. */
  lemma MapsWithout(p: seq<Fun>, x: Fun, q: seq<Fun>, n: nat, feet: set<object>)
    requires MapsOk(p + [x] + q, n, feet)
    ensures MapOk(x.1, n, feet) && MapsOk(p + q, n, feet - x.1.repr)
  {
    hide InnerMap.Valid;
    var s, z := p + [x] + q, p + q;
    assert s[|p|] == x;
    forall i | 0 <= i < |z|
      ensures MapOk(z[i].1, n, feet - x.1.repr)
    {
      var j := if i < |p| then i else i + 1;
      assert z[i] == s[j] && MapOk(s[j].1, n, feet);
      OwnRepr(z[i].1);
      assert if j < |p| then s[j].1.repr !! s[|p|].1.repr else s[|p|].1.repr !! s[j].1.repr;
    }
    forall i, j | 0 <= i < j < |z|
      ensures z[i].1.repr !! z[j].1.repr
    {
      var a, b := if i < |p| then i else i + 1, if j < |p| then j else j + 1;
      assert z[i] == s[a] && z[j] == s[b] && s[a].1.repr !! s[b].1.repr;
    }
  }

  /** A map with a footprint of its own can join a list anywhere. */
  lemma MapsWith(p: seq<Fun>, x: Fun, q: seq<Fun>, n: nat, feet: set<object>)
    requires MapsOk(p + q, n, feet) && x.1.Valid() && x.1 in x.1.repr && x.1.n == n && x.1.repr !! feet
    ensures MapsOk(p + [x] + q, n, feet + x.1.repr)
  {
    hide InnerMap.Valid;
    var s, z := p + [x] + q, p + q;
    forall i | 0 <= i < |s|
      ensures MapOk(s[i].1, n, feet + x.1.repr)
      ensures i != |p| ==> s[i].1.repr <= feet
    {
      if i != |p| {
        var j := if i < |p| then i else i - 1;
        assert s[i] == z[j] && MapOk(z[j].1, n, feet);
      }
    }
    forall i, j | 0 <= i < j < |s|
      ensures s[i].1.repr !! s[j].1.repr
    {
      if i != |p| && j != |p| {
        var a, b := if i < |p| then i else i - 1, if j < |p| then j else j - 1;
        assert s[i] == z[a] && s[j] == z[b] && z[a].1.repr !! z[b].1.repr;
      }
    }
  }

  /** Valid maps have good rows. */
  lemma MapRows(m: InnerMap)
    requires m.Valid()
    ensures GoodInner(m.rows, m.n)
  {
    RowValsGood(Inorder(m.fm.tree), m.n);
  }

  lemma MapInserted(s: seq<Fun>, key: FileFn, m: InnerMap, n: nat, feet: set<object>)
    requires Ascending(s, CmpFileFn) && Find(s, key).None? && MapsOk(s, n, feet)
    requires m.Valid() && m.n == n && m.repr !! feet
    ensures var u := Put(s, key, m, CmpFileFn);
      && MapsOk(u, n, feet + m.repr) && FunVals(u) == Put(FunVals(s), key, m.rows, CmpFileFn)
      && forall x :: x in Maps(u) ==> x in feet + m.repr
  {
    hide Put, Find, Ascending, InnerMap.Valid, FunVals, MapsOk;
    FileFnOrder();
    var i := PutSplit(s, key, m, CmpFileFn);
    assert s[..i] + s[i..] == s;
    OwnRepr(m);
    MapsWith(s[..i], (key, m), s[i..], n, feet);
    FunValsPut(s, key, m);
    MapsIn(Put(s, key, m, CmpFileFn), n, feet + m.repr);
  }

  lemma OwnRepr(m: InnerMap)
    requires m.Valid()
    ensures m in m.repr
  {
  }

  lemma MapsIn(s: seq<Fun>, n: nat, feet: set<object>)
    requires MapsOk(s, n, feet)
    ensures forall m :: m in Maps(s) ==> m in feet
  {
    forall m | m in Maps(s)
      ensures m in feet
    {
      var p :| p in s && p.1 == m;
      var i :| 0 <= i < |s| && s[i] == p;
      assert MapOk(s[i].1, n, feet);
    }
  }

  /** The list without its k-th binding */
  function Without(s: seq<Fun>, k: nat): seq<Fun>
    requires k < |s|
  {
    s[..k] + s[k + 1..]
  }

  lemma Apart<T>(s: seq<T>, k: nat)
    requires k < |s|
    ensures s[..k] + [s[k]] + s[k + 1..] == s
  {
  }

  /** One map set apart from the others: they lie outside its footprint. */
  lemma TakeApart(s: seq<Fun>, k: nat, n: nat, feet: set<object>)
    requires k < |s| && MapsOk(s, n, feet)
    ensures MapOk(s[k].1, n, feet) && MapsOk(Without(s, k), n, feet - s[k].1.repr)
    ensures forall x :: x in Maps(Without(s, k)) ==> x in feet - s[k].1.repr
  {
    hide MapsOk, InnerMap.Valid;
    Apart(s, k);
    MapsWithout(s[..k], s[k], s[k + 1..], n, feet);
    MapsIn(Without(s, k), n, feet - s[k].1.repr);
  }

  /** Put back after it changed, within a footprint still apart from theirs. */
  lemma PutTogether(s: seq<Fun>, k: nat, n: nat, rest: set<object>)
    requires k < |s| && MapsOk(Without(s, k), n, rest) && s[k].1.Valid() && s[k].1.n == n && s[k].1.repr !! rest
    ensures MapsOk(s, n, rest + s[k].1.repr)
  {
    hide MapsOk, InnerMap.Valid;
    Apart(s, k);
    OwnRepr(s[k].1);
    MapsWith(s[..k], s[k], s[k + 1..], n, rest);
  }

  lemma FunValsWithout(s: seq<Fun>, k: nat)
    requires k < |s|
    ensures FunVals(Without(s, k)) == FunVals(s)[..k] + FunVals(s)[k + 1..] && FunVals(s)[k] == (s[k].0, s[k].1.rows)
  {
    hide FunVals;
    var w, r := Without(s, k), FunVals(s);
    FunValsAt(s, k);
    forall i | 0 <= i < |w|
      ensures FunVals(w)[i] == (r[..k] + r[k + 1..])[i]
    {
      FunValsAt(w, i);
      FunValsAt(s, if i < k then i else i + 1);
    }
  }

  /** Lists that agree apart from one place */
  lemma ReplacedAt<T>(r: seq<T>, z: seq<T>, k: nat)
    requires |r| == |z| && k < |r| && r[..k] + r[k + 1..] == z[..k] + z[k + 1..]
    ensures z == r[k := z[k]]
  {
    forall i | 0 <= i < |r| && i != k
      ensures z[i] == r[i]
    {
      var j := if i < k then i else i - 1;
      assert (r[..k] + r[k + 1..])[j] == r[i] && (z[..k] + z[k + 1..])[j] == z[i];
    }
  }

  /** The footprints of the maps on both sides of a node's own */
  lemma FunsSplit(t: Tree<FileFn, InnerMap>, n: nat, feet: set<object>) returns (l: set<object>, r: set<object>)
    requires t.Fork? && MapsOk(Inorder(t), n, feet)
    ensures MapsOk(Inorder(t.left), n, l) && MapsOk(Inorder(t.right), n, r) && MapOk(t.val, n, feet)
    ensures l <= feet && r <= feet && l !! r && t.val.repr !! l && t.val.repr !! r
  {
    hide InnerMap.Valid, MapsOk, MapOk, InOne;
    var p, x, q := Inorder(t.left), (t.key, t.val), Inorder(t.right);
    var s := p + [x] + q;
    MapsWithout(p, x, q, n, feet);
    assert s[0..|p|] == p && s[|p| + 1..|s|] == q;
    l := set o | o in feet && InOne(o, p);
    r := set o | o in feet && InOne(o, q);
    MapsWithin(s, 0, |p|, n, feet, l);
    MapsWithin(s, |p| + 1, |s|, n, feet, r);
    SplitApart(p, x, q, n, feet, l, r);
  }

  lemma SplitApart(p: seq<Fun>, x: Fun, q: seq<Fun>, n: nat, feet: set<object>, l: set<object>, r: set<object>)
    requires MapsOk(p + [x] + q, n, feet)
    requires l == (set o | o in feet && InOne(o, p)) && r == set o | o in feet && InOne(o, q)
    ensures l !! r && x.1.repr !! l && x.1.repr !! r
  {
    hide InnerMap.Valid, MapOk;
    var s := p + [x] + q;
    assert s[|p|] == x;
    forall o | o in l
      ensures o !in x.1.repr && o !in r
    {
      var i :| 0 <= i < |p| && p[i] in p && o in p[i].1.repr;
      assert s[i] == p[i];
      forall j | 0 <= j < |q|
        ensures o !in q[j].1.repr
      {
        assert s[|p| + 1 + j] == q[j];
      }
    }
    forall o | o in r
      ensures o !in x.1.repr
    {
      var j :| 0 <= j < |q| && q[j] in q && o in q[j].1.repr;
      assert s[|p| + 1 + j] == q[j];
    }
  }

  ghost predicate InOne(o: object, s: seq<Fun>)
    reads Maps(s)
  {
    exists i :: 0 <= i < |s| && s[i] in s && o in s[i].1.repr
  }

  lemma MapsWithin(s: seq<Fun>, a: nat, b: nat, n: nat, feet: set<object>, part: set<object>)
    requires a <= b <= |s| && MapsOk(s, n, feet) && part == set o | o in feet && InOne(o, s[a..b])
    ensures MapsOk(s[a..b], n, part)
  {
    hide InnerMap.Valid;
    var z := s[a..b];
    forall i | 0 <= i < |z|
      ensures MapOk(z[i].1, n, part)
    {
      assert z[i] == s[a + i] && MapOk(s[a + i].1, n, feet);
      OwnRepr(z[i].1);
      forall o | o in z[i].1.repr
        ensures o in part
      {
        assert InOne(o, z);
      }
    }
    forall i, j | 0 <= i < j < |z|
      ensures z[i].1.repr !! z[j].1.repr
    {
      assert z[i] == s[a + i] && z[j] == s[a + j];
    }
  }
}
