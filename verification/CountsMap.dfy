/** The inner maps of cg_merge.c on the heap: line numbers to count vectors, both in place. */
module CountsMap {
  import opened MachineWords
  import opened Wrappers
  import opened WordFM
  import opened WordFMap
  import opened ProfileMap

  type Row = (nat, array<nat>)

  ghost function Arrays(s: seq<Row>): set<array<nat>> {
    set p | p in s :: p.1
  }

  /** The rows a list of bindings stands for */
  ghost function RowVals(s: seq<Row>): (r: Inner)
    reads Arrays(s)
    ensures |r| == |s|
  {
    if s == [] then [] else [(s[0].0, s[0].1[..])] + RowVals(s[1..])
  }

  lemma {:induction false} RowValsAt(s: seq<Row>, i: nat)
    requires i < |s|
    ensures RowVals(s)[i] == (s[i].0, s[i].1[..])
  {
    if i > 0 {
      RowValsAt(s[1..], i - 1);
    }
  }

  /** No count vector belongs to two lines, and all have n counts. */
  ghost predicate Separate(s: seq<Row>, n: nat) {
    && (forall i :: 0 <= i < |s| ==> s[i].1.Length == n)
    && (forall i, j :: 0 <= i < j < |s| ==> s[i].1 != s[j].1)
  }

  lemma {:induction false} RowValsFind(s: seq<Row>, k: nat)
    ensures Find(RowVals(s), k) == match Find(s, k) case None => None case Some(a) => Some(a[..])
  {
    if s != [] {
      RowValsFind(s[1..], k);
      assert RowVals(s)[1..] == RowVals(s[1..]);
    }
  }

  lemma {:induction false} RowValsPut(s: seq<Row>, k: nat, a: array<nat>)
    ensures RowVals(Put(s, k, a, CmpLine)) == Put(RowVals(s), k, a[..], CmpLine)
  {
    var u, r := Put(s, k, a, CmpLine), RowVals(s);
    if s != [] {
      assert r[1..] == RowVals(s[1..]) && r[0].0 == s[0].0;
      if CmpLine(s[0].0, k) < 0 {
        RowValsPut(s[1..], k, a);
        assert u[1..] == Put(s[1..], k, a, CmpLine);
      } else if CmpLine(s[0].0, k) > 0 {
        assert u[1..] == s;
      } else {
        assert u[1..] == s[1..];
      }
    }
  }

  lemma RowValsGood(s: seq<Row>, n: nat)
    requires Ascending(s, CmpLine) && Separate(s, n)
    ensures GoodInner(RowVals(s), n)
  {
    forall i | 0 <= i < |s|
      ensures RowVals(s)[i].0 == s[i].0 && |RowVals(s)[i].1| == n
    {
      RowValsAt(s, i);
    }
  }

  /** Replacing the value of a key in place is putting it. */
  lemma {:induction false} PutAt<K(!new), V>(s: seq<(K, V)>, i: nat, v: V, cmp: (K, K) -> int)
    requires i < |s| && TotalOrder(cmp) && Ascending(s, cmp)
    ensures Put(s, s[i].0, v, cmp) == s[i := (s[i].0, v)]
  {
    assert Lawful(cmp, s[i].0, s[i].0, s[i].0);
    if i > 0 {
      assert cmp(s[0].0, s[i].0) < 0;
      PutAt(s[1..], i - 1, v, cmp);
      assert s[i := (s[i].0, v)] == [s[0]] + s[1..][i - 1 := (s[i].0, v)];
    }
  }

  lemma {:induction false} PutSeparate(s: seq<Row>, k: nat, a: array<nat>, n: nat)
    requires Separate(s, n) && a.Length == n && a !in Arrays(s) && Ascending(s, CmpLine)
    ensures Separate(Put(s, k, a, CmpLine), n) && Arrays(Put(s, k, a, CmpLine)) <= Arrays(s) + {a}
    ensures a in Arrays(Put(s, k, a, CmpLine))
  {
    var u := Put(s, k, a, CmpLine);
    if s != [] {
      var rest := s[1..];
      assert Arrays(s) == {s[0].1} + Arrays(rest);
      assert forall i :: 0 <= i < |rest| ==> rest[i] == s[i + 1];
      if CmpLine(s[0].0, k) < 0 {
        PutSeparate(rest, k, a, n);
        SeparateCons(s[0], Put(rest, k, a, CmpLine), n);
      } else if CmpLine(s[0].0, k) > 0 {
        SeparateCons((k, a), s, n);
      } else {
        SeparateCons((s[0].0, a), rest, n);
      }
    } else {
      assert u == [(k, a)];
      assert u[0].1 in Arrays(u);
    }
  }

  lemma SeparateCons(x: Row, s: seq<Row>, n: nat)
    requires Separate(s, n) && x.1.Length == n && x.1 !in Arrays(s)
    ensures Separate([x] + s, n) && Arrays([x] + s) == Arrays(s) + {x.1}
  {
    var z := [x] + s;
    forall i, j | 0 <= i < j < |z|
      ensures z[i].1 != z[j].1
    {
      assert z[j] == s[j - 1] && s[j - 1].1 in Arrays(s);
      if i > 0 {
        assert z[i] == s[i - 1];
      }
    }
    forall p | p in z
      ensures p.1 in Arrays(s) + {x.1}
    {
    }
    assert z[0] in z;
    forall p | p in s
      ensures p in z
    {
      var i :| 0 <= i < |s| && s[i] == p;
      assert z[i + 1] == p;
    }
  }

  lemma {:induction false} RowValsConcat(p: seq<Row>, q: seq<Row>)
    ensures RowVals(p + q) == RowVals(p) + RowVals(q)
  {
    if p == [] {
      assert p + q == q;
    } else {
      assert (p + q)[1..] == p[1..] + q;
      RowValsConcat(p[1..], q);
    }
  }

  /** Adding to one vector changes one row. */
  method AddAt(ghost s: seq<Row>, ghost k: nat, a: array<nat>, c: Counts)
    requires Separate(s, |c|) && k < |s| && a == s[k].1 && a.Length == |c|
    modifies a
    ensures a[..] == AddCounts(old(a[..]), c)
    ensures RowVals(s) == old(RowVals(s))[k := (s[k].0, a[..])]
  {
    hide RowVals;
    ghost var p, x, q := s[..k], [s[k]], s[k + 1..];
    assert s == p + x + q && s == p + (x + q);
    RowValsConcat(p, x + q);
    RowValsConcat(x, q);
    assert a !in Arrays(p) && a !in Arrays(q);
    ghost var vp, vq := RowVals(p), RowVals(q);
    AddInto(a, c);
    assert RowVals(p) == vp && RowVals(q) == vq;
    RowValsConcat(p, x + q);
    RowValsConcat(x, q);
    RowValsAt(x, 0);
  }

  lemma NewRow(s: seq<Row>, line: nat, a: array<nat>, n: nat)
    requires Ascending(s, CmpLine) && Separate(s, n) && Find(s, line).None? && a.Length == n
    ensures GoodInner(RowVals(s), n) && RowVals(Put(s, line, a, CmpLine)) == AddToInner(RowVals(s), line, a[..])
  {
    hide Put, Ascending, RowVals, Separate;
    RowValsGood(s, n);
    RowValsFind(s, line);
    RowValsPut(s, line, a);
  }

  class InnerMap {
    const n: nat
    const fm: FM<nat, array<nat>>
    ghost var rows: Inner
    ghost var repr: set<object>

    /** Between two operations no iteration is under way. */
    ghost predicate Valid()
      reads this, repr
    {
      && this in repr && fm in repr && fm.nodeStack in repr && fm.numStack in repr
      && Nodes(fm.tree) <= repr && Arrays(Inorder(fm.tree)) <= repr
      && fm.Valid() && fm.stackTop == 0 && fm.kCmp == CmpLine && Separate(Inorder(fm.tree), n)
      && rows == RowVals(Inorder(fm.tree))
    }

    constructor (n: nat)
      ensures Valid() && fresh(repr) && rows == [] && this.n == n
    {
      this.n := n;
      LineOrder();
      fm := new FM(CmpLine);
      rows := [];
      new;
      repr := {this, fm, fm.nodeStack, fm.numStack};
    }

    /** A map without rows takes over a whole tree. */
    method Adopt(root: AvlNode?<nat, array<nat>>, ghost t: Tree<nat, array<nat>>)
      requires Valid() && Rep(root, t) && Distinct(t) && Avl(t)
      requires Ascending(Inorder(t), CmpLine) && Separate(Inorder(t), n)
      modifies this`rows, this`repr, fm
      ensures Valid() && rows == RowVals(Inorder(t)) && repr == old(repr) + Nodes(t) + Arrays(Inorder(t))
    {
      hide Inorder, Distinct, Avl, Ascending, RowVals, Separate;
      ghost var kept, vals := Rep(root, t), RowVals(Inorder(t));
      assert allocated(Nodes(t)) && allocated(Arrays(Inorder(t)));
      fm.root := root;
      fm.tree := t;
      assert kept == Rep(fm.root, fm.tree) && vals == RowVals(Inorder(t));
      rows := vals;
      repr := repr + Nodes(t) + Arrays(Inorder(t));
    }

    /** lookupFM */
    method Lookup(line: nat) returns (a: Option<array<nat>>)
      requires Valid()
      ensures a == Find(Inorder(fm.tree), line)
      ensures a.Some? ==> a.value in Arrays(Inorder(fm.tree)) && a.value.Length == n && a.value in repr
    {
      a := fm.Lookup(line);
      FindMap(Inorder(fm.tree), line);
      FindIn(Inorder(fm.tree), line);
    }

    /** One whole iteration; `ok` tells whether the iterator's assertions hold. */
    method Bindings() returns (ok: bool, s: seq<Row>)
      requires Valid()
      modifies fm.nodeStack, fm.numStack, fm`stackTop, fm`visits
      ensures (ok <==> LeftDepth(fm.tree) <= WFM_STKMAX) && (ok ==> Valid() && s == Inorder(fm.tree))
    {
      hide Inorder, Avl, Distinct, Ascending, LeftDepth;
      ghost var r := Inorder(fm.tree);
      assert allocated(Arrays(r));
      ok, s := fm.Walk();
      assert rows == RowVals(r);
    }

    /** Counts added to a line's own vector, in place */
    method AddTo(line: nat, a: array<nat>, c: Counts)
      requires Valid() && Find(Inorder(fm.tree), line) == Some(a) && |c| == n == a.Length && a in repr
      modifies this`rows, a
      ensures Valid() && GoodInner(old(rows), n) && rows == AddToInner(old(rows), line, c)
    {
      hide Put, Inorder, Find, Ascending, RowVals, Separate;
      ghost var s, r := Inorder(fm.tree), rows;
      assert allocated(Nodes(fm.tree));
      ghost var kept := fm.Valid();
      RowValsGood(s, n);
      RowValsFind(s, line);
      FindIn(s, line);
      ghost var k :| 0 <= k < |s| && s[k] == (line, a);
      RowValsAt(s, k);
      AddAt(s, k, a, c);
      assert kept == fm.Valid();
      rows := RowVals(s);
      LineOrder();
      PutAt(r, k, a[..], CmpLine);
    }

    /** A line that has no counts yet gets a vector of its own. */
    method AddNew(line: nat, a: array<nat>)
      requires Valid() && Find(Inorder(fm.tree), line).None? && a.Length == n && a !in repr
      modifies this`rows, this`repr, fm, Nodes(fm.tree)
      ensures Valid() && GoodInner(old(rows), n) && rows == AddToInner(old(rows), line, a[..])
      ensures old(repr) <= repr && a in repr && fresh(repr - old(repr) - {a})
    {
      hide Put, Inorder, Find, Ascending, Avl, Distinct, RowVals, Separate, AddToInner, CmpLine;
      hide ShapeOf, Grow, Balanced, ToMap;
      ghost var s := Inorder(fm.tree);
      RowValsGood(s, n);
      PutSeparate(s, line, a, n);
      NewRow(s, line, a, n);
      ghost var u := RowVals(Put(s, line, a, CmpLine));
      fm.Add(line, a);
      repr := repr + {a} + Nodes(fm.tree);
      rows := u;
    }

    /** addCountsToMap: add to the line's counts, or keep the new vector as the line's own.  `free` tells the caller
        whether the vector is still its own. */
    method AddCountsToMap(line: nat, newCounts: array<nat>) returns (free: bool)
      requires Valid() && newCounts.Length == n && newCounts !in repr
      modifies repr
      ensures Valid() && GoodInner(old(rows), n) && rows == AddToInner(old(rows), line, old(newCounts[..]))
      ensures old(repr) <= repr && (free <==> newCounts !in repr) && fresh(repr - old(repr) - {newCounts})
      ensures newCounts[..] == old(newCounts[..]) && (free <==> Find(old(rows), line).Some?)
    {
      hide AddToInner, Inorder, Find, Avl, Distinct, Ascending;
      RowValsGood(Inorder(fm.tree), n);
      RowValsFind(Inorder(fm.tree), line);
      var found := Lookup(line);
      if found.Some? {
        AddTo(line, found.value, newCounts[..]);
        free := true;
      } else {
        AddNew(line, newCounts);
        free := false;
      }
    }

    /** A row of another map merged in: added to the line's counts, or copied. */
    method MergeRow(line: nat, c: array<nat>)
      requires Valid() && c.Length == n && c !in repr
      modifies repr
      ensures Valid() && GoodInner(old(rows), n) && rows == AddToInner(old(rows), line, old(c[..]))
      ensures old(repr) <= repr && c !in repr && fresh(repr - old(repr)) && c[..] == old(c[..])
    {
      hide AddToInner, Inorder, Find, Avl, Distinct, Ascending;
      RowValsGood(Inorder(fm.tree), n);
      var found := Lookup(line);
      if found.Some? {
        AddTo(line, found.value, c[..]);
      } else {
        var copy := DopyCounts(c);
        AddNew(line, copy);
      }
    }

    lemma AvlInside()
      requires Valid()
      ensures Avl(fm.tree) && |rows| == |Inorder(fm.tree)|
    {
    }

    lemma Parts()
      requires Valid()
      ensures Rep(fm.root, fm.tree) && Distinct(fm.tree) && Avl(fm.tree) && Ascending(Inorder(fm.tree), CmpLine)
      ensures Separate(Inorder(fm.tree), n) && rows == RowVals(Inorder(fm.tree)) && fm.stackTop == 0
    {
    }

    /** ddel_InnerMap: the nodes and vectors are overwritten, and no promise is made about them. */
    method Free()
      requires Valid()
      modifies repr
    {
      hide Inorder, Avl, Ascending, RowVals, Separate;
      FreeRows(fm.root, fm.tree);
      fm.root, fm.stackTop := null, 0;
    }
  }

  /** avl_free with ddel_Counts */
  method FreeRows(nd: AvlNode?<nat, array<nat>>, ghost t: Tree<nat, array<nat>>)
    requires Rep(nd, t) && Distinct(t)
    modifies Nodes(t), Arrays(Inorder(t))
    decreases t
  {
    hide Inorder;
    if nd == null {
      return;
    }
    ArraysOf(t);
    assert allocated(Nodes(t)) && allocated(Arrays(Inorder(t)));
    var right, v := nd.right, nd.val;
    ghost var kept := Rep(right, t.right);
    FreeRows(nd.left, t.left);
    assert kept == Rep(right, t.right);
    FreeRows(nd.right, t.right);
    for i := 0 to v.Length {
      v[i] := 0;
    }
    nd.left, nd.right, nd.balance := null, null, 0;
  }

  lemma ArraysOf(t: Tree<nat, array<nat>>)
    requires t.Fork?
    ensures Arrays(Inorder(t.left)) <= Arrays(Inorder(t)) && Arrays(Inorder(t.right)) <= Arrays(Inorder(t))
    ensures t.val in Arrays(Inorder(t))
  {
    var l, x, r := Inorder(t.left), [(t.key, t.val)], Inorder(t.right);
    assert x[0] in x && (t.key, t.val) in Inorder(t);
  }

  /** addCounts: element by element, in place */
  method AddInto(a: array<nat>, b: Counts)
    requires a.Length == |b|
    modifies a
    ensures a[..] == AddCounts(old(a[..]), b)
  {
    for i := 0 to a.Length
      invariant forall j :: 0 <= j < i ==> a[j] == (old(a[j]) + b[j]) % W64
      invariant forall j :: i <= j < a.Length ==> a[j] == old(a[j])
    {
      a[i] := (a[i] + b[i]) % W64;
    }
  }

  /** dopy_Counts: a new vector with the same counts */
  method DopyCounts(a: array<nat>) returns (b: array<nat>)
    ensures fresh(b) && b.Length == a.Length && b[..] == a[..]
  {
    b := new nat[a.Length](i requires 0 <= i < a.Length reads a => a[i]);
  }

  // ---------------------------------------------------------------------------
  // Deep copy

  /** u has the shape, keys and counts of t, on vectors of its own. */
  ghost predicate CopyOf(t: Tree<nat, array<nat>>, u: Tree<nat, array<nat>>, n: nat)
    reads Arrays(Inorder(t)), Arrays(Inorder(u))
  {
    && RowVals(Inorder(u)) == RowVals(Inorder(t)) && Separate(Inorder(u), n)
    && Height(u) == Height(t) && (Avl(t) ==> Avl(u))
  }

  ghost predicate Lengths(t: Tree<nat, array<nat>>, n: nat) {
    forall p :: p in Inorder(t) ==> p.1.Length == n
  }

  lemma LengthsFork(t: Tree<nat, array<nat>>, n: nat)
    requires t.Fork? && Lengths(t, n)
    ensures t.val.Length == n && Lengths(t.left, n) && Lengths(t.right, n)
  {
    var l, x, r := Inorder(t.left), [(t.key, t.val)], Inorder(t.right);
    assert x[0] in x && (t.key, t.val) in Inorder(t);
  }

  /** avl_dopy with dopy_Counts: new nodes and new vectors all the way down */
  method DopyRows(nd: AvlNode?<nat, array<nat>>, n: nat, ghost t: Tree<nat, array<nat>>)
    returns (nyu: AvlNode?<nat, array<nat>>, ghost u: Tree<nat, array<nat>>)
    requires Rep(nd, t) && Lengths(t, n)
    ensures Rep(nyu, u) && fresh(Nodes(u)) && fresh(Arrays(Inorder(u))) && Distinct(u) && CopyOf(t, u, n)
    decreases t, 2
  {
    hide CopyOf, Rep, Distinct, Inorder, Lengths;
    if nd == null {
      nyu, u := null, Leaf;
      NothingCopied(nd, t, u, n);
      return;
    }
    var left, right, v;
    ghost var l, r;
    left, right, v, l, r := CopyParts(nd, n, t);
    nyu, u := CopyNode(nd.key, v, nd.balance, n, left, right, t, l, r);
  }

  lemma NothingCopied(nd: AvlNode?<nat, array<nat>>, t: Tree<nat, array<nat>>, u: Tree<nat, array<nat>>, n: nat)
    requires nd == null && Rep(nd, t) && u == Leaf
    ensures Rep(nd, u) && Nodes(u) == {} && Arrays(Inorder(u)) == {} && Distinct(u) && CopyOf(t, u, n)
  {
  }

  /** The copies of both subtrees and of the node's own vector */
  method CopyParts(nd: AvlNode<nat, array<nat>>, n: nat, ghost t: Tree<nat, array<nat>>)
    returns (left: AvlNode?<nat, array<nat>>, right: AvlNode?<nat, array<nat>>, v: array<nat>,
             ghost l: Tree<nat, array<nat>>, ghost r: Tree<nat, array<nat>>)
    requires Rep(nd, t) && Lengths(t, n)
    ensures t.Fork? && nd.key == t.key && nd.val == t.val && nd.balance == t.bal
    ensures Rep(left, l) && fresh(Nodes(l)) && fresh(Arrays(Inorder(l))) && Distinct(l) && CopyOf(t.left, l, n)
    ensures Rep(right, r) && fresh(Nodes(r)) && fresh(Arrays(Inorder(r))) && Distinct(r) && CopyOf(t.right, r, n)
    ensures Nodes(l) !! Nodes(r) && Arrays(Inorder(l)) !! Arrays(Inorder(r))
    ensures fresh(v) && v !in Arrays(Inorder(l)) && v !in Arrays(Inorder(r)) && v.Length == n && v[..] == t.val[..]
    decreases t, 1
  {
    hide CopyOf, Rep, Distinct, Inorder, Lengths;
    NodeParts(nd, t, n);
    left, right, l, r := DopyChildren(nd, n, t);
    assert allocated(Nodes(l)) && allocated(Nodes(r)) && allocated(Arrays(Inorder(l))) && allocated(Arrays(Inorder(r)));
    assert allocated(Arrays(Inorder(t.left))) && allocated(Arrays(Inorder(t.right)));
    ghost var keptLeft, keptRight := Rep(left, l), Rep(right, r);
    ghost var copiedLeft, copiedRight := CopyOf(t.left, l, n), CopyOf(t.right, r, n);
    v := DopyCounts(nd.val);
    assert keptLeft == Rep(left, l) && keptRight == Rep(right, r);
    assert copiedLeft == CopyOf(t.left, l, n) && copiedRight == CopyOf(t.right, r, n);
  }

  lemma NodeParts(nd: AvlNode<nat, array<nat>>, t: Tree<nat, array<nat>>, n: nat)
    requires Rep(nd, t) && Lengths(t, n)
    ensures t.Fork? && nd.key == t.key && nd.val == t.val && nd.balance == t.bal && t.val.Length == n
  {
    LengthsFork(t, n);
  }

  /** Both subtrees of a node, copied one after the other */
  method DopyChildren(nd: AvlNode<nat, array<nat>>, n: nat, ghost t: Tree<nat, array<nat>>)
    returns (left: AvlNode?<nat, array<nat>>, right: AvlNode?<nat, array<nat>>, ghost l: Tree<nat, array<nat>>,
             ghost r: Tree<nat, array<nat>>)
    requires Rep(nd, t) && Lengths(t, n)
    ensures t.Fork? && nd.key == t.key && nd.val == t.val && nd.balance == t.bal
    ensures Rep(left, l) && fresh(Nodes(l)) && fresh(Arrays(Inorder(l))) && Distinct(l) && CopyOf(t.left, l, n)
    ensures Rep(right, r) && fresh(Nodes(r)) && fresh(Arrays(Inorder(r))) && Distinct(r) && CopyOf(t.right, r, n)
    ensures Nodes(l) !! Nodes(r) && Arrays(Inorder(l)) !! Arrays(Inorder(r))
    decreases t, 0
  {
    hide CopyOf, Distinct, Inorder, Lengths;
    LengthsFork(t, n);
    assert allocated(Nodes(t)) && allocated(Arrays(Inorder(t.left))) && allocated(Arrays(Inorder(t.right)));
    ghost var keptRight := Rep(nd.right, t.right);
    left, l := DopyRows(nd.left, n, t.left);
    assert keptRight == Rep(nd.right, t.right) && allocated(Nodes(l)) && allocated(Arrays(Inorder(l)));
    ghost var kept, copied := Rep(left, l), CopyOf(t.left, l, n);
    right, r := DopyRows(nd.right, n, t.right);
    assert kept == Rep(left, l) && copied == CopyOf(t.left, l, n);
  }

  /** A node with a copied vector on top of the copied subtrees */
  method CopyNode(key: nat, v: array<nat>, balance: int, n: nat,
                  left: AvlNode?<nat, array<nat>>, right: AvlNode?<nat, array<nat>>,
                  ghost t: Tree<nat, array<nat>>, ghost l: Tree<nat, array<nat>>, ghost r: Tree<nat, array<nat>>)
    returns (nyu: AvlNode<nat, array<nat>>, ghost u: Tree<nat, array<nat>>)
    requires t.Fork? && key == t.key && v[..] == t.val[..] && balance == t.bal && v.Length == n
    requires Rep(left, l) && Distinct(l) && CopyOf(t.left, l, n)
    requires Rep(right, r) && Distinct(r) && CopyOf(t.right, r, n)
    requires Nodes(l) !! Nodes(r) && Arrays(Inorder(l)) !! Arrays(Inorder(r))
    requires v !in Arrays(Inorder(l)) && v !in Arrays(Inorder(r))
    ensures Rep(nyu, u) && Distinct(u) && CopyOf(t, u, n) && fresh(nyu)
    ensures Nodes(u) == Nodes(l) + {nyu} + Nodes(r)
    ensures Arrays(Inorder(u)) <= Arrays(Inorder(l)) + {v} + Arrays(Inorder(r))
  {
    hide CopyOf, Distinct, Inorder, Rep;
    assert allocated(Arrays(Inorder(l))) && allocated(Arrays(Inorder(r)));
    assert allocated(Arrays(Inorder(t.left))) && allocated(Arrays(Inorder(t.right)));
    ghost var copiedLeft, copiedRight := CopyOf(t.left, l, n), CopyOf(t.right, r, n);
    nyu, u := Join(key, v, balance, left, right, l, r);
    assert copiedLeft == CopyOf(t.left, l, n) && copiedRight == CopyOf(t.right, r, n);
    ForkCopied(t, u, n);
    ArraysFork(u);
  }

  method Join(key: nat, v: array<nat>, balance: int, left: AvlNode?<nat, array<nat>>, right: AvlNode?<nat, array<nat>>,
              ghost l: Tree<nat, array<nat>>, ghost r: Tree<nat, array<nat>>)
    returns (nyu: AvlNode<nat, array<nat>>, ghost u: Tree<nat, array<nat>>)
    requires Rep(left, l) && Rep(right, r) && Distinct(l) && Distinct(r) && Nodes(l) !! Nodes(r)
    ensures fresh(nyu) && u == Fork(l, nyu, key, v, balance, r) && Rep(nyu, u)
    ensures Distinct(u) && Nodes(u) == Nodes(l) + {nyu} + Nodes(r)
  {
    assert allocated(Nodes(l)) && allocated(Nodes(r));
    ghost var keptLeft, keptRight := Rep(left, l), Rep(right, r);
    nyu := new AvlNode(key, v);
    nyu.left, nyu.right, nyu.balance := left, right, balance;
    u := Fork(l, nyu, key, v, balance, r);
    assert keptLeft == Rep(left, l) && keptRight == Rep(right, r);
    ForkDistinct(u);
  }

  lemma ForkDistinct(u: Tree<nat, array<nat>>)
    requires u.Fork? && Distinct(u.left) && Distinct(u.right) && Nodes(u.left) !! Nodes(u.right)
    requires u.node !in Nodes(u.left) && u.node !in Nodes(u.right)
    ensures Distinct(u) && Nodes(u) == Nodes(u.left) + {u.node} + Nodes(u.right)
  {
  }

  lemma ArraysFork(u: Tree<nat, array<nat>>)
    requires u.Fork?
    ensures Arrays(Inorder(u)) <= Arrays(Inorder(u.left)) + {u.val} + Arrays(Inorder(u.right))
  {
  }

  lemma {:induction false} ForkCopied(t: Tree<nat, array<nat>>, u: Tree<nat, array<nat>>, n: nat)
    requires t.Fork? && u.Fork? && u.key == t.key && u.bal == t.bal && u.val[..] == t.val[..] && u.val.Length == n
    requires CopyOf(t.left, u.left, n) && CopyOf(t.right, u.right, n)
    requires Arrays(Inorder(u.left)) !! Arrays(Inorder(u.right))
    requires u.val !in Arrays(Inorder(u.left)) && u.val !in Arrays(Inorder(u.right))
    ensures CopyOf(t, u, n)
  {
    RowValsFork(t);
    RowValsFork(u);
    SeparateJoin(Inorder(u.left), (u.key, u.val), Inorder(u.right), n);
  }

  lemma RowValsFork(t: Tree<nat, array<nat>>)
    requires t.Fork?
    ensures RowVals(Inorder(t)) == RowVals(Inorder(t.left)) + [(t.key, t.val[..])] + RowVals(Inorder(t.right))
  {
    hide RowVals;
    var l, x, r := Inorder(t.left), [(t.key, t.val)], Inorder(t.right);
    RowValsConcat(l + x, r);
    RowValsConcat(l, x);
    RowValsAt(x, 0);
    assert RowVals(x) == [(t.key, t.val[..])];
  }

  lemma SeparateJoin(l: seq<Row>, x: Row, r: seq<Row>, n: nat)
    requires Separate(l, n) && Separate(r, n) && x.1.Length == n
    requires Arrays(l) !! Arrays(r) && x.1 !in Arrays(l) && x.1 !in Arrays(r)
    ensures Separate(l + [x] + r, n)
  {
    var z := l + [x] + r;
    forall i, j | 0 <= i < j < |z|
      ensures z[i].1 != z[j].1
    {
      assert i < |l| ==> z[i] == l[i] && l[i].1 in Arrays(l);
      assert j < |l| ==> z[j] == l[j] && l[j].1 in Arrays(l);
      assert i > |l| ==> z[i] == r[i - |l| - 1] && r[i - |l| - 1].1 in Arrays(r);
      assert j > |l| ==> z[j] == r[j - |l| - 1] && r[j - |l| - 1].1 in Arrays(r);
    }
  }

  /** Rows with the same values have the same keys in the same order. */
  lemma SameOrder(s: seq<Row>, u: seq<Row>)
    requires RowVals(s) == RowVals(u) && Ascending(s, CmpLine)
    ensures Ascending(u, CmpLine)
  {
    forall i | 0 <= i < |s|
      ensures u[i].0 == s[i].0
    {
      RowValsAt(s, i);
      RowValsAt(u, i);
    }
  }

  /** dopy_InnerMap: the copy has the same rows and shares nothing.  The map is not being iterated over, as the
      source asserts. */
  method DopyInnerMap(m: InnerMap) returns (c: InnerMap)
    requires m.Valid()
    ensures c.Valid() && fresh(c.repr) && c.rows == m.rows && c.n == m.n
  {
    hide Inorder, Distinct, Avl, Height, Ascending, RowVals, Separate, Lengths, CopyOf, InnerMap.Valid;
    m.Parts();
    assert m.fm.stackTop == 0;
    var n := m.n;
    ghost var t := m.fm.tree;
    assert allocated(Nodes(t)) && allocated(Arrays(Inorder(t)));
    LengthsOf(t, n);
    var nyu;
    ghost var u;
    nyu, u := DopyRows(m.fm.root, n, t);
    CopyMeans(t, u, n);
    assert allocated(Nodes(u)) && allocated(Arrays(Inorder(u)));
    ghost var kept, rows := Rep(nyu, u), RowVals(Inorder(u));
    c := new InnerMap(m.n);
    assert kept == Rep(nyu, u) && rows == RowVals(Inorder(u));
    c.Adopt(nyu, u);
  }

  lemma CopyMeans(t: Tree<nat, array<nat>>, u: Tree<nat, array<nat>>, n: nat)
    requires CopyOf(t, u, n) && Avl(t) && Ascending(Inorder(t), CmpLine)
    ensures RowVals(Inorder(u)) == RowVals(Inorder(t)) && Separate(Inorder(u), n)
    ensures Avl(u) && Ascending(Inorder(u), CmpLine)
  {
    SameOrder(Inorder(t), Inorder(u));
  }

  lemma LengthsOf(t: Tree<nat, array<nat>>, n: nat)
    requires Separate(Inorder(t), n)
    ensures Lengths(t, n)
  {
  }
}
