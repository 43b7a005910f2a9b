/** The finite map of cg_merge.c: an AVL tree of linked nodes, rebalanced in place.

    A ghost `Tree` mirrors the linked nodes; `Rep` ties the two together.  What the map
    means is its in-order list of bindings, and insertion and removal are specified by the
    corresponding operations `Put` and `Del` on that list. */
module WordFM {
  import opened Wrappers

  class AvlNode<K, V> {
    var key: K
    var val: V
    var left: AvlNode?<K, V>
    var right: AvlNode?<K, V>
    var balance: int

    constructor (k: K, v: V)
      ensures key == k && val == v
    {
      key, val, left, right, balance := k, v, null, null, 0;
    }
  }

  // ---------------------------------------------------------------------------
  // Comparators and ordered binding lists

  ghost predicate Lawful<K>(cmp: (K, K) -> int, a: K, b: K, c: K) {
    && (cmp(a, b) == 0 <==> a == b)
    && (cmp(a, b) < 0 <==> cmp(b, a) > 0)
    && (cmp(a, b) < 0 && cmp(b, c) < 0 ==> cmp(a, c) < 0)
  }

  /** What the map demands of its comparison function. */
  ghost predicate TotalOrder<K(!new)>(cmp: (K, K) -> int) {
    forall a, b, c :: Lawful(cmp, a, b, c)
  }

  ghost predicate Ascending<K, V>(s: seq<(K, V)>, cmp: (K, K) -> int) {
    forall i, j :: 0 <= i < j < |s| ==> cmp(s[i].0, s[j].0) < 0
  }

  /** Insert or overwrite a binding in an ascending list. */
  function Put<K, V>(s: seq<(K, V)>, k: K, v: V, cmp: (K, K) -> int): seq<(K, V)> {
    if s == [] then [(k, v)]
    else if cmp(s[0].0, k) > 0 then [(k, v)] + s
    else if cmp(s[0].0, k) < 0 then [s[0]] + Put(s[1..], k, v, cmp)
    else [(s[0].0, v)] + s[1..]
  }

  /** Drop the first binding of a key. */
  function Del<K(==), V>(s: seq<(K, V)>, k: K): seq<(K, V)> {
    if s == [] then []
    else if s[0].0 == k then s[1..]
    else [s[0]] + Del(s[1..], k)
  }

  /** The value bound to a key, if any. */
  function Find<K(==), V>(s: seq<(K, V)>, k: K): Option<V> {
    if s == [] then None
    else if s[0].0 == k then Some(s[0].1)
    else Find(s[1..], k)
  }

  /** The finite map a binding list stands for. */
  function ToMap<K, V>(s: seq<(K, V)>): map<K, V> {
    if s == [] then map[] else ToMap(s[1..])[s[0].0 := s[0].1]
  }

  lemma {:induction false} PutLeft<K(!new), V>(l: seq<(K, V)>, x: (K, V), r: seq<(K, V)>, k: K, v: V,
                                               cmp: (K, K) -> int)
    requires cmp(x.0, k) > 0
    ensures Put(l + [x] + r, k, v, cmp) == Put(l, k, v, cmp) + [x] + r
  {
    var s := l + [x] + r;
    if l != [] {
      PutLeft(l[1..], x, r, k, v, cmp);
      assert s[1..] == l[1..] + [x] + r;
    }
  }

  lemma {:induction false} PutRight<K(!new), V>(l: seq<(K, V)>, x: (K, V), r: seq<(K, V)>, k: K, v: V,
                                                cmp: (K, K) -> int)
    requires TotalOrder(cmp) && Ascending(l + [x] + r, cmp) && cmp(x.0, k) <= 0
    ensures cmp(x.0, k) < 0 ==> Put(l + [x] + r, k, v, cmp) == l + [x] + Put(r, k, v, cmp)
    ensures cmp(x.0, k) == 0 ==> Put(l + [x] + r, k, v, cmp) == l + [(x.0, v)] + r
  {
    var s := l + [x] + r;
    assert Lawful(cmp, x.0, k, k);
    if l == [] {
      assert s[1..] == r;
    } else {
      assert s[|l|] == x && s[0] == l[0] && cmp(l[0].0, x.0) < 0;
      assert s[1..] == l[1..] + [x] + r;
      assert Lawful(cmp, l[0].0, x.0, k);
      PutRight(l[1..], x, r, k, v, cmp);
    }
  }

  lemma {:induction false} PutKeys<K(!new), V>(s: seq<(K, V)>, k: K, v: V, cmp: (K, K) -> int)
    ensures forall p :: p in Put(s, k, v, cmp) ==> p.0 == k || exists q :: q in s && q.0 == p.0
  {
    if s != [] && cmp(s[0].0, k) < 0 {
      PutKeys(s[1..], k, v, cmp);
    }
  }

  lemma {:induction false} AscendingCons<K, V>(x: (K, V), s: seq<(K, V)>, cmp: (K, K) -> int)
    requires Ascending(s, cmp) && forall p | p in s :: cmp(x.0, p.0) < 0
    ensures Ascending([x] + s, cmp)
  {
  }

  lemma {:induction false} PutAscending<K(!new), V>(s: seq<(K, V)>, k: K, v: V, cmp: (K, K) -> int)
    requires TotalOrder(cmp) && Ascending(s, cmp)
    ensures Ascending(Put(s, k, v, cmp), cmp)
  {
    if s != [] {
      var rest := s[1..];
      if cmp(s[0].0, k) < 0 {
        PutAscending(rest, k, v, cmp);
        PutKeys(rest, k, v, cmp);
        AscendingCons(s[0], Put(rest, k, v, cmp), cmp);
      } else if cmp(s[0].0, k) == 0 {
        AscendingCons((s[0].0, v), rest, cmp);
      } else {
        forall p | p in s
          ensures cmp(k, p.0) < 0
        {
          assert Lawful(cmp, k, s[0].0, p.0) && Lawful(cmp, s[0].0, k, k);
        }
        AscendingCons((k, v), s, cmp);
      }
    }
  }

  lemma {:induction false} PutMap<K(!new), V>(s: seq<(K, V)>, k: K, v: V, cmp: (K, K) -> int)
    requires TotalOrder(cmp) && Ascending(s, cmp)
    ensures ToMap(Put(s, k, v, cmp)) == ToMap(s)[k := v]
  {
    if s != [] {
      var u := Put(s, k, v, cmp);
      assert Lawful(cmp, s[0].0, k, k);
      if cmp(s[0].0, k) < 0 {
        PutMap(s[1..], k, v, cmp);
        assert u[1..] == Put(s[1..], k, v, cmp);
      } else if cmp(s[0].0, k) == 0 {
        assert u[1..] == s[1..];
      } else {
        assert u[1..] == s;
      }
    }
  }

  /** Where a key can only be found, seen from a binding in the middle of an ascending list. */
  lemma {:induction false} FindSplit<K(!new), V>(l: seq<(K, V)>, x: (K, V), r: seq<(K, V)>, k: K, cmp: (K, K) -> int)
    requires TotalOrder(cmp) && Ascending(l + [x] + r, cmp)
    ensures Find(l + [x] + r, k) ==
      if cmp(x.0, k) > 0 then Find(l, k) else if cmp(x.0, k) < 0 then Find(r, k) else Some(x.1)
  {
    var s := l + [x] + r;
    assert Lawful(cmp, x.0, k, k);
    if l == [] {
      assert s[1..] == r;
      if cmp(x.0, k) > 0 {
        FindAbsent(r, x.0, k, cmp);
      }
    } else {
      assert s[|l|] == x && s[0] == l[0] && cmp(l[0].0, x.0) < 0;
      assert s[1..] == l[1..] + [x] + r;
      assert Lawful(cmp, l[0].0, x.0, k) && Lawful(cmp, l[0].0, k, k);
      FindSplit(l[1..], x, r, k, cmp);
    }
  }

  lemma {:induction false} FindAbsent<K(!new), V>(s: seq<(K, V)>, x: K, k: K, cmp: (K, K) -> int)
    requires TotalOrder(cmp) && cmp(x, k) > 0 && forall p | p in s :: cmp(x, p.0) < 0
    ensures Find(s, k) == None
  {
    if s != [] {
      assert Lawful(cmp, x, s[0].0, k) && Lawful(cmp, x, k, k) && s[0] in s;
      FindAbsent(s[1..], x, k, cmp);
    }
  }

  lemma {:induction false} DelSplit<K, V>(l: seq<(K, V)>, r: seq<(K, V)>, k: K)
    ensures (exists v :: (k, v) in l) ==> Del(l + r, k) == Del(l, k) + r
    ensures (forall p | p in l :: p.0 != k) ==> Del(l + r, k) == l + Del(r, k)
  {
    if exists v :: (k, v) in l {
      DelInLeft(l, r, k);
    } else {
      forall p | p in l
        ensures p.0 != k
      {
        assert p == (p.0, p.1);
      }
      DelInRight(l, r, k);
    }
  }

  lemma {:induction false} DelInLeft<K, V>(l: seq<(K, V)>, r: seq<(K, V)>, k: K)
    requires exists v :: (k, v) in l
    ensures Del(l + r, k) == Del(l, k) + r
  {
    assert (l + r)[0] == l[0] && (l + r)[1..] == l[1..] + r;
    if l[0].0 != k {
      var v :| (k, v) in l;
      assert (k, v) in l[1..];
      DelInLeft(l[1..], r, k);
    }
  }

  lemma {:induction false} DelInRight<K, V>(l: seq<(K, V)>, r: seq<(K, V)>, k: K)
    requires forall p | p in l :: p.0 != k
    ensures Del(l + r, k) == l + Del(r, k)
  {
    if l == [] {
      assert l + r == r;
    } else {
      assert l[0] in l && (l + r)[0] == l[0] && (l + r)[1..] == l[1..] + r;
      DelInRight(l[1..], r, k);
      assert l == [l[0]] + l[1..];
    }
  }

  lemma {:induction false} DelAscending<K, V>(s: seq<(K, V)>, k: K, cmp: (K, K) -> int)
    requires Ascending(s, cmp)
    ensures Ascending(Del(s, k), cmp) && forall p | p in Del(s, k) :: p in s
  {
    if s != [] && s[0].0 != k {
      DelAscending(s[1..], k, cmp);
      AscendingCons(s[0], Del(s[1..], k), cmp);
    }
  }

  lemma {:induction false} DelMap<K(!new), V>(s: seq<(K, V)>, k: K, cmp: (K, K) -> int)
    requires TotalOrder(cmp) && Ascending(s, cmp)
    ensures ToMap(Del(s, k)) == ToMap(s) - {k}
  {
    if s == [] {
    } else if s[0].0 == k {
      assert Lawful(cmp, k, k, k);
      MapKey(s[1..], k);
      assert k !in ToMap(s[1..]);
    } else {
      DelMap(s[1..], k, cmp);
      assert Del(s, k)[1..] == Del(s[1..], k);
    }
  }

  lemma {:induction false} MapKey<K, V>(s: seq<(K, V)>, k: K)
    ensures k in ToMap(s) <==> exists p :: p in s && p.0 == k
  {
    if s != [] {
      MapKey(s[1..], k);
      assert k in ToMap(s[1..]) ==> exists p :: p in s[1..] && p.0 == k;
    }
  }

  // ---------------------------------------------------------------------------
  // The ghost mirror of the linked tree

  datatype Tree<K, V> =
    | Leaf
    | Fork(left: Tree<K, V>, node: AvlNode<K, V>, key: K, val: V, bal: int, right: Tree<K, V>)

  ghost function Nodes<K, V>(t: Tree<K, V>): set<AvlNode<K, V>> {
    if t.Leaf? then {} else Nodes(t.left) + {t.node} + Nodes(t.right)
  }

  /** No node occurs twice. */
  ghost predicate Distinct<K, V>(t: Tree<K, V>) {
    t.Fork? ==>
      && Distinct(t.left) && Distinct(t.right)
      && t.node !in Nodes(t.left) && t.node !in Nodes(t.right)
      && Nodes(t.left) !! Nodes(t.right)
  }

  /** The nodes reachable from `n` are laid out exactly as `t` says. */
  ghost predicate Rep<K, V>(n: AvlNode?<K, V>, t: Tree<K, V>)
    reads Nodes(t)
  {
    match t
    case Leaf => n == null
    case Fork(l, nd, k, v, b, r) =>
      && n == nd && nd.key == k && nd.val == v && nd.balance == b
      && Rep(nd.left, l) && Rep(nd.right, r)
  }

  ghost function Height<K, V>(t: Tree<K, V>): nat {
    if t.Leaf? then 0
    else 1 + if Height(t.left) < Height(t.right) then Height(t.right) else Height(t.left)
  }

  /** Every balance field is the true height difference and lies in {-1, 0, 1}. */
  ghost predicate Avl<K, V>(t: Tree<K, V>) {
    t.Fork? ==>
      && Avl(t.left) && Avl(t.right)
      && t.bal == Height(t.right) - Height(t.left) && -1 <= t.bal <= 1
  }

  ghost function Inorder<K, V>(t: Tree<K, V>): seq<(K, V)> {
    if t.Leaf? then [] else Inorder(t.left) + [(t.key, t.val)] + Inorder(t.right)
  }

  // ---------------------------------------------------------------------------
  // Rotations

  ghost function RotL<K, V>(t: Tree<K, V>): Tree<K, V>
    requires t.Fork? && t.right.Fork?
  {
    t.right.(left := t.(right := t.right.left))
  }

  ghost function RotR<K, V>(t: Tree<K, V>): Tree<K, V>
    requires t.Fork? && t.left.Fork?
  {
    t.left.(right := t.(left := t.left.right))
  }

  lemma {:induction false} RotLKeeps<K, V>(t: Tree<K, V>)
    requires t.Fork? && t.right.Fork?
    ensures Inorder(RotL(t)) == Inorder(t)
    ensures Nodes(RotL(t)) == Nodes(t)
    ensures Distinct(t) ==> Distinct(RotL(t))
  {
    var u, d := RotL(t), t.right;
    assert Inorder(t) == Inorder(t.left) + [(t.key, t.val)] + (Inorder(d.left) + [(d.key, d.val)] + Inorder(d.right));
    assert Inorder(u) == (Inorder(t.left) + [(t.key, t.val)] + Inorder(d.left)) + [(d.key, d.val)] + Inorder(d.right);
    assert Nodes(t) == Nodes(t.left) + {t.node} + (Nodes(d.left) + {d.node} + Nodes(d.right));
    assert Nodes(u) == (Nodes(t.left) + {t.node} + Nodes(d.left)) + {d.node} + Nodes(d.right);
    if Distinct(t) {
      assert Distinct(d) && Distinct(u.left);
    }
  }

  lemma {:induction false} RotRKeeps<K, V>(t: Tree<K, V>)
    requires t.Fork? && t.left.Fork?
    ensures Inorder(RotR(t)) == Inorder(t)
    ensures Nodes(RotR(t)) == Nodes(t)
    ensures Distinct(t) ==> Distinct(RotR(t))
  {
    var u, d := RotR(t), t.left;
    assert Inorder(t) == (Inorder(d.left) + [(d.key, d.val)] + Inorder(d.right)) + [(t.key, t.val)] + Inorder(t.right);
    assert Inorder(u) == Inorder(d.left) + [(d.key, d.val)] + (Inorder(d.right) + [(t.key, t.val)] + Inorder(t.right));
    assert Nodes(t) == (Nodes(d.left) + {d.node} + Nodes(d.right)) + {t.node} + Nodes(t.right);
    assert Nodes(u) == Nodes(d.left) + {d.node} + (Nodes(d.right) + {t.node} + Nodes(t.right));
    if Distinct(t) {
      assert Distinct(d) && Distinct(u.right);
    }
  }

  method SwingLeft<K, V>(root: AvlNode<K, V>, ghost t: Tree<K, V>) returns (b: AvlNode<K, V>)
    requires Rep(root, t) && Distinct(t) && t.Fork? && t.right.Fork?
    modifies root`right, t.right.node`left
    ensures Rep(b, RotL(t))
    ensures Distinct(RotL(t)) && Nodes(RotL(t)) == Nodes(t) && Inorder(RotL(t)) == Inorder(t)
  {
    RotLKeeps(t);
    var a := root;
    b := a.right;
    a.right := b.left;
    b.left := a;
  }

  method SwingRight<K, V>(root: AvlNode<K, V>, ghost t: Tree<K, V>) returns (b: AvlNode<K, V>)
    requires Rep(root, t) && Distinct(t) && t.Fork? && t.left.Fork?
    modifies root`left, t.left.node`right
    ensures Rep(b, RotR(t))
    ensures Distinct(RotR(t)) && Nodes(RotR(t)) == Nodes(t) && Inorder(RotR(t)) == Inorder(t)
  {
    RotRKeeps(t);
    var a := root;
    b := a.left;
    a.left := b.right;
    b.right := a;
  }

  /** The balances avl_nasty leaves behind after a double rotation. */
  ghost function Nasty<K, V>(t: Tree<K, V>): Tree<K, V>
    requires t.Fork? && t.left.Fork? && t.right.Fork?
  {
    t.(bal := 0,
       left := t.left.(bal := if t.bal == 1 then -1 else 0),
       right := t.right.(bal := if t.bal == -1 then 1 else 0))
  }

  lemma {:induction false} RebalKeeps<K, V>(t: Tree<K, V>, u: Tree<K, V>)
    requires t.Fork? && u.Fork? && t.left.Fork? && t.right.Fork? && u.left.Fork? && u.right.Fork?
    requires u == t.(bal := u.bal, left := t.left.(bal := u.left.bal), right := t.right.(bal := u.right.bal))
    ensures Inorder(u) == Inorder(t) && Nodes(u) == Nodes(t) && (Distinct(t) ==> Distinct(u))
  {
    assert Inorder(u.left) == Inorder(t.left) && Inorder(u.right) == Inorder(t.right);
    assert Nodes(u.left) == Nodes(t.left) && Nodes(u.right) == Nodes(t.right);
    if Distinct(t) {
      assert Distinct(t.left) && Distinct(t.right) && Distinct(u.left) && Distinct(u.right);
    }
  }

  method FixNasty<K, V>(root: AvlNode<K, V>, ghost t: Tree<K, V>)
    requires Rep(root, t) && Distinct(t)
    requires t.Fork? && t.left.Fork? && t.right.Fork? && -1 <= t.bal <= 1
    modifies root`balance, t.left.node`balance, t.right.node`balance
    ensures Rep(root, Nasty(t)) && Distinct(Nasty(t))
    ensures Nodes(Nasty(t)) == Nodes(t) && Inorder(Nasty(t)) == Inorder(t)
  {
    RebalKeeps(t, Nasty(t));
    match root.balance {
      case -1 =>
        root.left.balance := 0;
        root.right.balance := 1;
      case 1 =>
        root.left.balance := -1;
        root.right.balance := 0;
      case 0 =>
        root.left.balance := 0;
        root.right.balance := 0;
      case _ =>
        assert false;
    }
    root.balance := 0;
  }

  /** What a double rotation makes of a left-heavy node whose left child leans the other way. */
  ghost function DoubleLeft<K, V>(t: Tree<K, V>): Tree<K, V>
    requires t.Fork? && t.left.Fork? && t.left.right.Fork?
  {
    Nasty(RotR(t.(left := RotL(t.left))))
  }

  lemma {:induction false} DoubleLeftKeeps<K, V>(t: Tree<K, V>)
    requires t.Fork? && t.left.Fork? && t.left.right.Fork? && Distinct(t)
    ensures var u := DoubleLeft(t); Inorder(u) == Inorder(t) && Nodes(u) == Nodes(t) && Distinct(u)
    ensures var t1 := t.(left := RotL(t.left)); Distinct(t1) && Nodes(t1) == Nodes(t)
  {
    RotLKeeps(t.left);
    var t1 := t.(left := RotL(t.left));
    RotRKeeps(t1);
    RebalKeeps(RotR(t1), DoubleLeft(t));
  }

  lemma {:induction false} DoubleLeftBalances<K, V>(t: Tree<K, V>)
    requires t.Fork? && Avl(t.left) && Avl(t.right)
    requires Height(t.right) - Height(t.left) == -2 && t.left.bal == 1
    ensures t.left.right.Fork? && Avl(DoubleLeft(t)) && Height(DoubleLeft(t)) == Height(t) - 1
  {
  }

  /** What a single rotation makes of a left-heavy node whose left child leans the same way. */
  ghost function SingleLeft<K, V>(t: Tree<K, V>, outer: int, inner: int): Tree<K, V>
    requires t.Fork? && t.left.Fork?
  {
    var t1 := RotR(t);
    t1.(bal := outer, right := t1.right.(bal := inner))
  }

  lemma {:induction false} SingleLeftKeeps<K, V>(t: Tree<K, V>, outer: int, inner: int)
    requires t.Fork? && t.left.Fork? && Distinct(t)
    ensures var u := SingleLeft(t, outer, inner); Inorder(u) == Inorder(t) && Nodes(u) == Nodes(t) && Distinct(u)
  {
  }

  lemma {:induction false} SingleLeftBalances<K, V>(t: Tree<K, V>)
    requires t.Fork? && Avl(t.left) && Avl(t.right) && Height(t.right) - Height(t.left) == -2
    ensures t.left.bal == -1 ==> Avl(SingleLeft(t, 0, 0)) && Height(SingleLeft(t, 0, 0)) == Height(t) - 1
    ensures t.left.bal == 0 ==>
      Avl(SingleLeft(t, 1, -1)) && Height(SingleLeft(t, 1, -1)) == Height(t)
  {
  }

  method SwingLeftDouble<K, V>(root: AvlNode<K, V>, ghost t: Tree<K, V>) returns (r: AvlNode<K, V>)
    requires Rep(root, t) && Distinct(t) && t.Fork? && t.left.Fork? && t.left.right.Fork? && -1 <= t.left.right.bal <= 1
    modifies Nodes(t)`left, Nodes(t)`right, Nodes(t)`balance
    ensures Rep(r, DoubleLeft(t))
  {
    DoubleLeftKeeps(t);
    assert t.left.right.node in Nodes(t.left.right) && t.left.right.node in Nodes(t.left);
    assert allocated(Nodes(t));
    ghost var rest := Rep(root.right, t.right);
    var c := SwingLeft(root.left, t.left);
    root.left := c;
    assert rest == Rep(root.right, t.right);
    ghost var t1 := t.(left := RotL(t.left));
    r := SwingRight(root, t1);
    FixNasty(r, RotR(t1));
  }

  method SwingLeftSingle<K, V>(root: AvlNode<K, V>, outer: int, inner: int, ghost t: Tree<K, V>)
    returns (r: AvlNode<K, V>)
    requires Rep(root, t) && Distinct(t) && t.Fork? && t.left.Fork?
    modifies Nodes(t)`left, Nodes(t)`right, Nodes(t)`balance
    ensures Rep(r, SingleLeft(t, outer, inner))
  {
    r := SwingRight(root, t);
    r.balance := outer;
    r.right.balance := inner;
  }

  /** What a double rotation makes of a right-heavy node whose right child leans the other way. */
  ghost function DoubleRight<K, V>(t: Tree<K, V>): Tree<K, V>
    requires t.Fork? && t.right.Fork? && t.right.left.Fork?
  {
    Nasty(RotL(t.(right := RotR(t.right))))
  }

  lemma {:induction false} DoubleRightKeeps<K, V>(t: Tree<K, V>)
    requires t.Fork? && t.right.Fork? && t.right.left.Fork? && Distinct(t)
    ensures var u := DoubleRight(t); Inorder(u) == Inorder(t) && Nodes(u) == Nodes(t) && Distinct(u)
    ensures var t1 := t.(right := RotR(t.right)); Distinct(t1) && Nodes(t1) == Nodes(t)
  {
    RotRKeeps(t.right);
    var t1 := t.(right := RotR(t.right));
    RotLKeeps(t1);
    RebalKeeps(RotL(t1), DoubleRight(t));
  }

  lemma {:induction false} DoubleRightBalances<K, V>(t: Tree<K, V>)
    requires t.Fork? && Avl(t.left) && Avl(t.right)
    requires Height(t.right) - Height(t.left) == 2 && t.right.bal == -1
    ensures t.right.left.Fork? && Avl(DoubleRight(t)) && Height(DoubleRight(t)) == Height(t) - 1
  {
  }

  /** What a single rotation makes of a right-heavy node whose right child leans the same way. */
  ghost function SingleRight<K, V>(t: Tree<K, V>, outer: int, inner: int): Tree<K, V>
    requires t.Fork? && t.right.Fork?
  {
    var t1 := RotL(t);
    t1.(bal := outer, left := t1.left.(bal := inner))
  }

  lemma {:induction false} SingleRightKeeps<K, V>(t: Tree<K, V>, outer: int, inner: int)
    requires t.Fork? && t.right.Fork? && Distinct(t)
    ensures var u := SingleRight(t, outer, inner); Inorder(u) == Inorder(t) && Nodes(u) == Nodes(t) && Distinct(u)
  {
  }

  lemma {:induction false} SingleRightBalances<K, V>(t: Tree<K, V>)
    requires t.Fork? && Avl(t.left) && Avl(t.right) && Height(t.right) - Height(t.left) == 2
    ensures t.right.bal == 1 ==> Avl(SingleRight(t, 0, 0)) && Height(SingleRight(t, 0, 0)) == Height(t) - 1
    ensures t.right.bal == 0 ==>
      Avl(SingleRight(t, -1, 1)) && Height(SingleRight(t, -1, 1)) == Height(t)
  {
  }

  method SwingRightDouble<K, V>(root: AvlNode<K, V>, ghost t: Tree<K, V>) returns (r: AvlNode<K, V>)
    requires Rep(root, t) && Distinct(t)
    requires t.Fork? && t.right.Fork? && t.right.left.Fork? && -1 <= t.right.left.bal <= 1
    modifies Nodes(t)`left, Nodes(t)`right, Nodes(t)`balance
    ensures Rep(r, DoubleRight(t))
  {
    DoubleRightKeeps(t);
    assert t.right.left.node in Nodes(t.right.left) && t.right.left.node in Nodes(t.right);
    assert allocated(Nodes(t));
    ghost var rest := Rep(root.left, t.left);
    var c := SwingRight(root.right, t.right);
    root.right := c;
    assert rest == Rep(root.left, t.left);
    ghost var t1 := t.(right := RotR(t.right));
    r := SwingLeft(root, t1);
    FixNasty(r, RotL(t1));
  }

  method SwingRightSingle<K, V>(root: AvlNode<K, V>, outer: int, inner: int, ghost t: Tree<K, V>)
    returns (r: AvlNode<K, V>)
    requires Rep(root, t) && Distinct(t) && t.Fork? && t.right.Fork?
    modifies Nodes(t)`left, Nodes(t)`right, Nodes(t)`balance
    ensures Rep(r, SingleRight(t, outer, inner))
  {
    r := SwingLeft(root, t);
    r.balance := outer;
    r.left.balance := inner;
  }

  // ---------------------------------------------------------------------------
  // Insertion

  /** All that avl_insert_wrk promises about the tree `u` it turns `t` into. */
  ghost predicate Inserted<K, V>(t: Tree<K, V>, a: AvlNode<K, V>, k: K, v: V, cmp: (K, K) -> int,
                                 u: Tree<K, V>, grew: bool, oldV: Option<V>)
  {
    && Distinct(u) && Avl(u)
    && Height(u) == Height(t) + (if grew then 1 else 0)
    && Inorder(u) == Put(Inorder(t), k, v, cmp)
    && oldV == Find(Inorder(t), k)
    && Nodes(u) == Nodes(t) + (if oldV.None? then {a} else {})
    && (grew && t.Fork? ==> u.Fork? && u.node == t.node && u.bal != 0)
  }

  /** What inserting without any rotation would lead to */
  ghost function Hang<K, V>(t: Tree<K, V>, a: AvlNode<K, V>, k: K, v: V, cmp: (K, K) -> int): Tree<K, V> {
    if t.Leaf? then Fork(Leaf, a, k, v, 0, Leaf)
    else if cmp(t.key, k) > 0 then
      var l := Hang(t.left, a, k, v, cmp);
      t.(left := l, bal := Height(t.right) - Height(l))
    else if cmp(t.key, k) < 0 then
      var r := Hang(t.right, a, k, v, cmp);
      t.(right := r, bal := Height(r) - Height(t.left))
    else t.(val := v)
  }

  /** Where no rotation is called for, none happens. */
  ghost predicate Hung<K, V>(t: Tree<K, V>, a: AvlNode<K, V>, k: K, v: V, cmp: (K, K) -> int, u: Tree<K, V>) {
    Avl(Hang(t, a, k, v, cmp)) ==> u == Hang(t, a, k, v, cmp)
  }

  lemma {:induction false} HungLeft<K, V>(t: Tree<K, V>, a: AvlNode<K, V>, k: K, v: V, cmp: (K, K) -> int,
                                          s: Tree<K, V>, grew: bool, u: Tree<K, V>)
    requires t.Fork? && Avl(t) && cmp(t.key, k) > 0 && Hung(t.left, a, k, v, cmp, s)
    requires Height(s) == Height(t.left) + (if grew then 1 else 0)
    requires if grew then t.bal >= 0 ==> u == t.(left := s, bal := t.bal - 1) else u == t.(left := s)
    ensures Hung(t, a, k, v, cmp, u)
  {
  }

  lemma {:induction false} HungRight<K, V>(t: Tree<K, V>, a: AvlNode<K, V>, k: K, v: V, cmp: (K, K) -> int,
                                           s: Tree<K, V>, grew: bool, u: Tree<K, V>)
    requires t.Fork? && Avl(t) && cmp(t.key, k) < 0 && Hung(t.right, a, k, v, cmp, s)
    requires Height(s) == Height(t.right) + (if grew then 1 else 0)
    requires if grew then t.bal <= 0 ==> u == t.(right := s, bal := t.bal + 1) else u == t.(right := s)
    ensures Hung(t, a, k, v, cmp, u)
  {
  }

  lemma HungThere<K, V>(t: Tree<K, V>, a: AvlNode<K, V>, k: K, v: V, cmp: (K, K) -> int, u: Tree<K, V>)
    requires if t.Leaf? then u == Fork(Leaf, a, k, v, 0, Leaf) else cmp(t.key, k) == 0 && u == t.(val := v)
    ensures Hung(t, a, k, v, cmp, u)
  {
  }

  lemma {:induction false} GraftLeft<K(!new), V>(t: Tree<K, V>, a: AvlNode<K, V>, k: K, v: V, cmp: (K, K) -> int,
                                       l: Tree<K, V>, grew: bool, oldV: Option<V>, b: int)
    requires t.Fork? && Distinct(t) && a !in Nodes(t)
    requires TotalOrder(cmp) && Ascending(Inorder(t), cmp) && cmp(t.key, k) > 0
    requires Inserted(t.left, a, k, v, cmp, l, grew, oldV)
    ensures var u := t.(left := l, bal := b);
      && Distinct(u) && Inorder(u) == Put(Inorder(t), k, v, cmp) && oldV == Find(Inorder(t), k)
      && Nodes(u) == Nodes(t) + (if oldV.None? then {a} else {})
    ensures Avl(t) ==> Avl(l) && Avl(t.right)
    ensures Avl(t) && !grew && b == t.bal ==> Inserted(t, a, k, v, cmp, t.(left := l), false, oldV)
    ensures Avl(t) && grew && t.left.Fork? ==>
      && l.Fork? && l.node == t.left.node && l.bal != 0
      && t.bal == Height(t.right) - Height(t.left) == Height(t.right) - Height(l) + 1 && -1 <= t.bal <= 1
  {
    PutLeft(Inorder(t.left), (t.key, t.val), Inorder(t.right), k, v, cmp);
    FindSplit(Inorder(t.left), (t.key, t.val), Inorder(t.right), k, cmp);
  }

  lemma {:induction false} GraftRight<K(!new), V>(t: Tree<K, V>, a: AvlNode<K, V>, k: K, v: V, cmp: (K, K) -> int,
                                        r: Tree<K, V>, grew: bool, oldV: Option<V>, b: int)
    requires t.Fork? && Distinct(t) && a !in Nodes(t)
    requires TotalOrder(cmp) && Ascending(Inorder(t), cmp) && cmp(t.key, k) < 0
    requires Inserted(t.right, a, k, v, cmp, r, grew, oldV)
    ensures var u := t.(right := r, bal := b);
      && Distinct(u) && Inorder(u) == Put(Inorder(t), k, v, cmp) && oldV == Find(Inorder(t), k)
      && Nodes(u) == Nodes(t) + (if oldV.None? then {a} else {})
    ensures Avl(t) ==> Avl(r) && Avl(t.left)
    ensures Avl(t) && !grew && b == t.bal ==> Inserted(t, a, k, v, cmp, t.(right := r), false, oldV)
    ensures Avl(t) && grew && t.right.Fork? ==>
      && r.Fork? && r.node == t.right.node && r.bal != 0
      && t.bal == Height(t.right) - Height(t.left) == Height(r) - Height(t.left) - 1 && -1 <= t.bal <= 1
  {
    PutRight(Inorder(t.left), (t.key, t.val), Inorder(t.right), k, v, cmp);
    FindSplit(Inorder(t.left), (t.key, t.val), Inorder(t.right), k, cmp);
  }

  lemma {:induction false} AscendingSubtrees<K, V>(t: Tree<K, V>, cmp: (K, K) -> int)
    requires t.Fork? && Ascending(Inorder(t), cmp)
    ensures Ascending(Inorder(t.left), cmp) && Ascending(Inorder(t.right), cmp)
    ensures Avl(t) ==> Avl(t.left) && Avl(t.right)
  {
    AscendingParts(Inorder(t.left), (t.key, t.val), Inorder(t.right), cmp);
  }

  lemma AscendingParts<K, V>(l: seq<(K, V)>, x: (K, V), r: seq<(K, V)>, cmp: (K, K) -> int)
    requires Ascending(l + [x] + r, cmp)
    ensures Ascending(l, cmp) && Ascending(r, cmp)
  {
    var s := l + [x] + r;
    assert forall i :: 0 <= i < |l| ==> s[i] == l[i];
    assert forall i :: 0 <= i < |r| ==> s[|l| + 1 + i] == r[i];
  }

  /** The left subtree has grown by one level: adjust the balance, rotating if it tips over. */
  method LeftGrew<K, V>(root: AvlNode<K, V>, ghost t: Tree<K, V>)
    returns (r: AvlNode<K, V>, grew: bool, ghost u: Tree<K, V>)
    requires Rep(root, t) && Distinct(t) && t.Fork? && t.left.Fork? && t.left.bal != 0
    requires Avl(t.left) && Avl(t.right) && -1 <= t.bal <= 1
    requires t.bal == Height(t.right) - Height(t.left) + 1
    modifies Nodes(t)`left, Nodes(t)`right, Nodes(t)`balance
    ensures Rep(r, u) && Distinct(u) && Avl(u) && Nodes(u) == Nodes(t) && Inorder(u) == Inorder(t)
    ensures Height(u) == Height(t) - (if t.bal == 1 || grew then 0 else 1)
    ensures grew <==> t.bal == 0
    ensures grew ==> u.Fork? && u.node == t.node && u.bal != 0
    ensures t.bal >= 0 ==> u == t.(bal := t.bal - 1)
  {
    var b := root.balance;
    root.balance := b - 1;
    ghost var t1 := t.(bal := t.bal - 1);
    assert Inorder(t1) == Inorder(t) && Nodes(t1) == Nodes(t);
    r, u := root, t1;
    if b == 1 {
      return r, false, u;
    } else if b == 0 {
      return r, true, u;
    }
    if root.left.balance < 0 {
      SingleLeftKeeps(t1, 0, 0);
      SingleLeftBalances(t1);
      r := SwingLeftSingle(root, 0, 0, t1);
      u := SingleLeft(t1, 0, 0);
    } else {
      DoubleLeftBalances(t1);
      DoubleLeftKeeps(t1);
      r := SwingLeftDouble(root, t1);
      u := DoubleLeft(t1);
    }
    return r, false, u;
  }

  /** The right subtree has grown by one level: adjust the balance, rotating if it tips over. */
  method RightGrew<K, V>(root: AvlNode<K, V>, ghost t: Tree<K, V>)
    returns (r: AvlNode<K, V>, grew: bool, ghost u: Tree<K, V>)
    requires Rep(root, t) && Distinct(t) && t.Fork? && t.right.Fork? && t.right.bal != 0
    requires Avl(t.left) && Avl(t.right) && -1 <= t.bal <= 1
    requires t.bal == Height(t.right) - Height(t.left) - 1
    modifies Nodes(t)`left, Nodes(t)`right, Nodes(t)`balance
    ensures Rep(r, u) && Distinct(u) && Avl(u) && Nodes(u) == Nodes(t) && Inorder(u) == Inorder(t)
    ensures Height(u) == Height(t) - (if t.bal == -1 || grew then 0 else 1)
    ensures grew <==> t.bal == 0
    ensures grew ==> u.Fork? && u.node == t.node && u.bal != 0
    ensures t.bal <= 0 ==> u == t.(bal := t.bal + 1)
  {
    var b := root.balance;
    root.balance := b + 1;
    ghost var t1 := t.(bal := t.bal + 1);
    assert Inorder(t1) == Inorder(t) && Nodes(t1) == Nodes(t);
    r, u := root, t1;
    if b == -1 {
      return r, false, u;
    } else if b == 0 {
      return r, true, u;
    }
    if root.right.balance > 0 {
      SingleRightKeeps(t1, 0, 0);
      SingleRightBalances(t1);
      r := SwingRightSingle(root, 0, 0, t1);
      u := SingleRight(t1, 0, 0);
    } else {
      DoubleRightBalances(t1);
      DoubleRightKeeps(t1);
      r := SwingRightDouble(root, t1);
      u := DoubleRight(t1);
    }
    return r, false, u;
  }

  /** avl_insert_wrk: add the detached node `a`, or overwrite the value already bound to its key. */
  method InsertWrk<K(==, !new), V>(root: AvlNode?<K, V>, a: AvlNode<K, V>, cmp: (K, K) -> int, ghost t: Tree<K, V>)
    returns (r: AvlNode<K, V>, grew: bool, oldV: Option<V>, ghost u: Tree<K, V>)
    requires TotalOrder(cmp)
    requires Rep(root, t) && Distinct(t) && Avl(t) && Ascending(Inorder(t), cmp) && a !in Nodes(t)
    modifies a`left, a`right, a`balance, Nodes(t)
    ensures Rep(r, u) && Inserted(t, a, a.key, a.val, cmp, u, grew, oldV) && Hung(t, a, a.key, a.val, cmp, u)
    decreases t, 1
  {
    hide Hang, Hung;
    a.left := null;
    a.right := null;
    a.balance := 0;
    assert Rep(root, t);
    if root == null {
      u := Fork(Leaf, a, a.key, a.val, 0, Leaf);
      HungThere(t, a, a.key, a.val, cmp, u);
      return a, true, None, u;
    }
    var cmpres := cmp(root.key, a.key);
    if cmpres > 0 {
      r, grew, oldV, u := InsertLeft(root, a, cmp, t);
    } else if cmpres < 0 {
      r, grew, oldV, u := InsertRight(root, a, cmp, t);
    } else {
      PutRight(Inorder(t.left), (t.key, t.val), Inorder(t.right), a.key, a.val, cmp);
      FindSplit(Inorder(t.left), (t.key, t.val), Inorder(t.right), a.key, cmp);
      oldV := Some(root.val);
      root.val := a.val;
      r, grew, u := root, false, t.(val := a.val);
      HungThere(t, a, a.key, a.val, cmp, u);
    }
  }

  lemma {:induction false} LeftGrewInserted<K(!new), V>(
    t: Tree<K, V>, a: AvlNode<K, V>, k: K, v: V, cmp: (K, K) -> int,
    s: Tree<K, V>, oldV: Option<V>, u: Tree<K, V>, grew: bool)
    requires t.Fork? && Distinct(t) && Avl(t) && a !in Nodes(t)
    requires TotalOrder(cmp) && Ascending(Inorder(t), cmp) && cmp(t.key, k) > 0
    requires Inserted(t.left, a, k, v, cmp, s, true, oldV)
    requires var t1 := t.(left := s);
      && Distinct(u) && Avl(u) && Nodes(u) == Nodes(t1) && Inorder(u) == Inorder(t1)
      && Height(u) == Height(t1) - (if t.bal == 1 || grew then 0 else 1)
      && (grew <==> t.bal == 0) && (grew ==> u.Fork? && u.node == t.node && u.bal != 0)
    ensures Inserted(t, a, k, v, cmp, u, grew, oldV)
  {
    GraftLeft(t, a, k, v, cmp, s, true, oldV, t.bal);
  }

  method AttachLeft<K(==, !new), V>(root: AvlNode<K, V>, a: AvlNode<K, V>, cmp: (K, K) -> int, ghost t: Tree<K, V>)
    returns (grew: bool, ghost u: Tree<K, V>)
    requires TotalOrder(cmp) && cmp(root.key, a.key) > 0
    requires Rep(root, t) && Distinct(t) && Avl(t) && Ascending(Inorder(t), cmp) && a !in Nodes(t)
    requires a.left == null && a.right == null && a.balance == 0 && root.left == null
    modifies root`left, root`balance
    ensures Rep(root, u) && Inserted(t, a, a.key, a.val, cmp, u, grew, None) && Hung(t, a, a.key, a.val, cmp, u)
  {
    hide Hang, Hung;
    ghost var k, v := a.key, a.val;
    assert allocated(Nodes(t));
    ghost var rest := Rep(root.right, t.right);
    root.left := a;
    var b := root.balance;
    root.balance := b - 1;
    assert rest == Rep(root.right, t.right);
    ghost var s := Fork(Leaf, a, k, v, 0, Leaf);
    GraftLeft(t, a, k, v, cmp, s, true, None, t.bal - 1);
    grew, u := b == 0, t.(left := s, bal := t.bal - 1);
    HungThere(t.left, a, k, v, cmp, s);
    HungLeft(t, a, k, v, cmp, s, true, u);
  }

  method InsertLeft<K(==, !new), V>(root: AvlNode<K, V>, a: AvlNode<K, V>, cmp: (K, K) -> int, ghost t: Tree<K, V>)
    returns (r: AvlNode<K, V>, grew: bool, oldV: Option<V>, ghost u: Tree<K, V>)
    requires TotalOrder(cmp) && cmp(root.key, a.key) > 0
    requires Rep(root, t) && Distinct(t) && Avl(t) && Ascending(Inorder(t), cmp) && a !in Nodes(t)
    requires a.left == null && a.right == null && a.balance == 0
    modifies a`left, a`right, a`balance, Nodes(t)
    ensures Rep(r, u) && Inserted(t, a, a.key, a.val, cmp, u, grew, oldV) && Hung(t, a, a.key, a.val, cmp, u)
    decreases t, 0
  {
    hide Inorder, Put, Find, Avl, Height, Ascending, TotalOrder, Hang, Hung;
    ghost var k, v := a.key, a.val;
    assert allocated(Nodes(t));
    ghost var rest := Rep(root.right, t.right);
    if root.left != null {
      AscendingSubtrees(t, cmp);
      ghost var s;
      var subLeft, childGrew;
      subLeft, childGrew, oldV, s := InsertWrk(root.left, a, cmp, t.left);
      assert rest == Rep(root.right, t.right);
      GraftLeft(t, a, k, v, cmp, s, childGrew, oldV, t.bal);
      if childGrew {
        r, grew, u := LeftGrew(root, t.(left := s));  // the child's root is still root.left: no write-back
        LeftGrewInserted(t, a, k, v, cmp, s, oldV, u, grew);
        HungLeft(t, a, k, v, cmp, s, true, u);
      } else {
        ghost var kept := Rep(subLeft, s);
        root.left := subLeft;
        assert kept == Rep(root.left, s) && rest == Rep(root.right, t.right);
        r, grew, u := root, false, t.(left := s);
        assert Rep(r, u);
        HungLeft(t, a, k, v, cmp, s, false, u);
      }
    } else {
      r, oldV := root, None;
      grew, u := AttachLeft(root, a, cmp, t);
    }
  }

  lemma {:induction false} RightGrewInserted<K(!new), V>(
    t: Tree<K, V>, a: AvlNode<K, V>, k: K, v: V, cmp: (K, K) -> int,
    s: Tree<K, V>, oldV: Option<V>, u: Tree<K, V>, grew: bool)
    requires t.Fork? && Distinct(t) && Avl(t) && a !in Nodes(t)
    requires TotalOrder(cmp) && Ascending(Inorder(t), cmp) && cmp(t.key, k) < 0
    requires Inserted(t.right, a, k, v, cmp, s, true, oldV)
    requires var t1 := t.(right := s);
      && Distinct(u) && Avl(u) && Nodes(u) == Nodes(t1) && Inorder(u) == Inorder(t1)
      && Height(u) == Height(t1) - (if t.bal == -1 || grew then 0 else 1)
      && (grew <==> t.bal == 0) && (grew ==> u.Fork? && u.node == t.node && u.bal != 0)
    ensures Inserted(t, a, k, v, cmp, u, grew, oldV)
  {
    GraftRight(t, a, k, v, cmp, s, true, oldV, t.bal);
  }

  method AttachRight<K(==, !new), V>(root: AvlNode<K, V>, a: AvlNode<K, V>, cmp: (K, K) -> int, ghost t: Tree<K, V>)
    returns (grew: bool, ghost u: Tree<K, V>)
    requires TotalOrder(cmp) && cmp(root.key, a.key) < 0
    requires Rep(root, t) && Distinct(t) && Avl(t) && Ascending(Inorder(t), cmp) && a !in Nodes(t)
    requires a.left == null && a.right == null && a.balance == 0 && root.right == null
    modifies root`right, root`balance
    ensures Rep(root, u) && Inserted(t, a, a.key, a.val, cmp, u, grew, None) && Hung(t, a, a.key, a.val, cmp, u)
  {
    hide Hang, Hung;
    ghost var k, v := a.key, a.val;
    assert allocated(Nodes(t));
    ghost var rest := Rep(root.left, t.left);
    root.right := a;
    var b := root.balance;
    root.balance := b + 1;
    assert rest == Rep(root.left, t.left);
    ghost var s := Fork(Leaf, a, k, v, 0, Leaf);
    GraftRight(t, a, k, v, cmp, s, true, None, t.bal + 1);
    grew, u := b == 0, t.(right := s, bal := t.bal + 1);
    HungThere(t.right, a, k, v, cmp, s);
    HungRight(t, a, k, v, cmp, s, true, u);
  }

  method InsertRight<K(==, !new), V>(root: AvlNode<K, V>, a: AvlNode<K, V>, cmp: (K, K) -> int, ghost t: Tree<K, V>)
    returns (r: AvlNode<K, V>, grew: bool, oldV: Option<V>, ghost u: Tree<K, V>)
    requires TotalOrder(cmp) && cmp(root.key, a.key) < 0
    requires Rep(root, t) && Distinct(t) && Avl(t) && Ascending(Inorder(t), cmp) && a !in Nodes(t)
    requires a.left == null && a.right == null && a.balance == 0
    modifies a`left, a`right, a`balance, Nodes(t)
    ensures Rep(r, u) && Inserted(t, a, a.key, a.val, cmp, u, grew, oldV) && Hung(t, a, a.key, a.val, cmp, u)
    decreases t, 0
  {
    hide Inorder, Put, Find, Avl, Height, Ascending, TotalOrder, Hang, Hung;
    ghost var k, v := a.key, a.val;
    assert allocated(Nodes(t));
    ghost var rest := Rep(root.left, t.left);
    if root.right != null {
      AscendingSubtrees(t, cmp);
      ghost var s;
      var subRight, childGrew;
      subRight, childGrew, oldV, s := InsertWrk(root.right, a, cmp, t.right);
      assert rest == Rep(root.left, t.left);
      GraftRight(t, a, k, v, cmp, s, childGrew, oldV, t.bal);
      if childGrew {
        r, grew, u := RightGrew(root, t.(right := s));  // the child's root is still root.right: no write-back
        RightGrewInserted(t, a, k, v, cmp, s, oldV, u, grew);
        HungRight(t, a, k, v, cmp, s, true, u);
      } else {
        ghost var kept := Rep(subRight, s);
        root.right := subRight;
        assert kept == Rep(root.right, s) && rest == Rep(root.left, t.left);
        r, grew, u := root, false, t.(right := s);
        assert Rep(r, u);
        HungRight(t, a, k, v, cmp, s, false, u);
      }
    } else {
      r, oldV := root, None;
      grew, u := AttachRight(root, a, cmp, t);
    }
  }

  // ---------------------------------------------------------------------------
  // Removal

  /** The left subtree has lost a level: adjust the balance, rotating if it tips over. */
  method LeftShrank<K, V>(root: AvlNode<K, V>, ghost t: Tree<K, V>)
    returns (r: AvlNode<K, V>, shrank: bool, ghost u: Tree<K, V>)
    requires Rep(root, t) && Distinct(t) && t.Fork? && Avl(t.left) && Avl(t.right) && -1 <= t.bal <= 1
    requires t.bal == Height(t.right) - Height(t.left) - 1
    modifies Nodes(t)`left, Nodes(t)`right, Nodes(t)`balance
    ensures Rep(r, u) && Distinct(u) && Avl(u) && Nodes(u) == Nodes(t) && Inorder(u) == Inorder(t)
    ensures Height(u) == Height(t) + (if t.bal == -1 then 1 else 0) - (if shrank then 1 else 0)
    ensures t.bal != 1 ==> u == t.(bal := t.bal + 1)
  {
    var b := root.balance;
    root.balance := b + 1;
    ghost var t1 := t.(bal := t.bal + 1);
    assert Inorder(t1) == Inorder(t) && Nodes(t1) == Nodes(t);
    r, u := root, t1;
    if b == -1 {
      return r, true, u;
    } else if b == 0 {
      return r, false, u;
    }
    SingleRightBalances(t1);
    match root.right.balance {
      case 0 =>
        SingleRightKeeps(t1, -1, 1);
        r := SwingRightSingle(root, -1, 1, t1);
        return r, false, SingleRight(t1, -1, 1);
      case 1 =>
        SingleRightKeeps(t1, 0, 0);
        r := SwingRightSingle(root, 0, 0, t1);
        return r, true, SingleRight(t1, 0, 0);
      case _ =>
        DoubleRightBalances(t1);
        DoubleRightKeeps(t1);
        r := SwingRightDouble(root, t1);
        return r, true, DoubleRight(t1);
    }
  }

  /** The right subtree has lost a level: adjust the balance, rotating if it tips over. */
  method RightShrank<K, V>(root: AvlNode<K, V>, ghost t: Tree<K, V>)
    returns (r: AvlNode<K, V>, shrank: bool, ghost u: Tree<K, V>)
    requires Rep(root, t) && Distinct(t) && t.Fork? && Avl(t.left) && Avl(t.right) && -1 <= t.bal <= 1
    requires t.bal == Height(t.right) - Height(t.left) + 1
    modifies Nodes(t)`left, Nodes(t)`right, Nodes(t)`balance
    ensures Rep(r, u) && Distinct(u) && Avl(u) && Nodes(u) == Nodes(t) && Inorder(u) == Inorder(t)
    ensures Height(u) == Height(t) + (if t.bal == 1 then 1 else 0) - (if shrank then 1 else 0)
    ensures t.bal != -1 ==> u == t.(bal := t.bal - 1)
  {
    var b := root.balance;
    root.balance := b - 1;
    ghost var t1 := t.(bal := t.bal - 1);
    assert Inorder(t1) == Inorder(t) && Nodes(t1) == Nodes(t);
    r, u := root, t1;
    if b == 1 {
      return r, true, u;
    } else if b == 0 {
      return r, false, u;
    }
    SingleLeftBalances(t1);
    match root.left.balance {
      case 0 =>
        SingleLeftKeeps(t1, 1, -1);
        r := SwingLeftSingle(root, 1, -1, t1);
        return r, false, SingleLeft(t1, 1, -1);
      case -1 =>
        SingleLeftKeeps(t1, 0, 0);
        r := SwingLeftSingle(root, 0, 0, t1);
        return r, true, SingleLeft(t1, 0, 0);
      case _ =>
        DoubleLeftBalances(t1);
        DoubleLeftKeeps(t1);
        r := SwingLeftDouble(root, t1);
        return r, true, DoubleLeft(t1);
    }
  }

  /** All that avl_remove_wrk promises about the tree `u` it turns `t` into. */
  ghost predicate Removed<K, V>(t: Tree<K, V>, a: AvlNode<K, V>, k: K, u: Tree<K, V>, shrank: bool) {
    && Distinct(u) && Avl(u)
    && Height(u) == Height(t) - (if shrank then 1 else 0)
    && Inorder(u) == Del(Inorder(t), k)
    && Nodes(u) == Nodes(t) - {a}
  }

  /** Removing below the root from a side that is not the shallower one leaves the root in place. */
  ghost predicate RootKept<K, V>(t: Tree<K, V>, a: AvlNode<K, V>, k: K, u: Tree<K, V>) {
    t.Fork? ==>
      && (a in Nodes(t.left) && t.bal <= 0 ==>
            u.Fork? && u == t.(left := u.left, bal := u.bal) && Inorder(u.left) == Del(Inorder(t.left), k)
            && Height(u.left) >= Height(t.left) - 1)
      && (a in Nodes(t.right) && t.bal >= 0 ==>
            u.Fork? && u == t.(right := u.right, bal := u.bal) && Inorder(u.right) == Del(Inorder(t.right), k)
            && Height(u.right) >= Height(t.right) - 1)
  }

  lemma {:induction false} MiddleLess<K(!new), V>(l: seq<(K, V)>, x: (K, V), r: seq<(K, V)>, k: K, cmp: (K, K) -> int)
    requires TotalOrder(cmp) && Ascending(l + [x] + r, cmp) && exists v :: (k, v) in r
    ensures forall p | p in l + [x] :: p.0 != k
  {
    var s := l + [x] + r;
    var v :| (k, v) in r;
    var j :| 0 <= j < |r| && r[j] == (k, v);
    forall p | p in l + [x]
      ensures p.0 != k
    {
      var i :| 0 <= i < |l| + 1 && (l + [x])[i] == p;
      assert s[i] == p && s[|l| + 1 + j] == (k, v);
      assert Lawful(cmp, k, k, k);
    }
  }

  lemma {:induction false} PruneLeft<K(!new), V>(t: Tree<K, V>, a: AvlNode<K, V>, k: K, cmp: (K, K) -> int,
                                       s: Tree<K, V>, shrank: bool)
    requires t.Fork? && Distinct(t) && Avl(t) && a in Nodes(t.left) && (exists v :: (k, v) in Inorder(t.left))
    requires TotalOrder(cmp) && Ascending(Inorder(t), cmp)
    requires Removed(t.left, a, k, s, shrank)
    ensures var u := t.(left := s);
      && Distinct(u) && Nodes(u) == Nodes(t) - {a} && Inorder(u) == Del(Inorder(t), k)
      && Avl(u.left) && Avl(u.right) && -1 <= u.bal <= 1
      && (shrank ==> u.bal == Height(u.right) - Height(u.left) - 1)
  {
    hide Del;
    var l, x, r := Inorder(t.left), [(t.key, t.val)], Inorder(t.right);
    assert Inorder(t) == l + (x + r);
    DelInLeft(l, x + r, k);
    assert Del(l, k) + (x + r) == Del(l, k) + x + r;
  }

  lemma {:induction false} PruneRight<K(!new), V>(t: Tree<K, V>, a: AvlNode<K, V>, k: K, cmp: (K, K) -> int,
                                       s: Tree<K, V>, shrank: bool)
    requires t.Fork? && Distinct(t) && Avl(t) && a in Nodes(t.right) && (exists v :: (k, v) in Inorder(t.right))
    requires TotalOrder(cmp) && Ascending(Inorder(t), cmp)
    requires Removed(t.right, a, k, s, shrank)
    ensures var u := t.(right := s);
      && Distinct(u) && Nodes(u) == Nodes(t) - {a} && Inorder(u) == Del(Inorder(t), k)
      && Avl(u.left) && Avl(u.right) && -1 <= u.bal <= 1
      && (shrank ==> u.bal == Height(u.right) - Height(u.left) + 1)
  {
    var l, x, r := Inorder(t.left), [(t.key, t.val)], Inorder(t.right);
    
    MiddleLess(l, x[0], r, k, cmp);
    DelSplit(l + x, r, k);
  }


  /** A node of the tree carries a binding of the tree, and its key tells on which side it is. */
  lemma {:induction false} NodeKey<K, V>(n: AvlNode?<K, V>, t: Tree<K, V>, a: AvlNode<K, V>)
    requires Rep(n, t) && a in Nodes(t)
    ensures (a.key, a.val) in Inorder(t)
  {
    if a in Nodes(t.left) {
      NodeKey(n.left, t.left, a);
    } else if a in Nodes(t.right) {
      NodeKey(n.right, t.right, a);
    }
  }

  lemma {:induction false} NodeSide<K(!new), V>(n: AvlNode<K, V>, t: Tree<K, V>, a: AvlNode<K, V>, cmp: (K, K) -> int)
    requires TotalOrder(cmp) && Rep(n, t) && a in Nodes(t) && Ascending(Inorder(t), cmp)
    ensures cmp(n.key, a.key) > 0 <==> a in Nodes(t.left)
    ensures cmp(n.key, a.key) < 0 <==> a in Nodes(t.right)
    ensures cmp(n.key, a.key) == 0 ==> a == n
  {
    var l, r, s := Inorder(t.left), Inorder(t.right), Inorder(t);
    assert s[|l|] == (t.key, t.val);
    assert Lawful(cmp, n.key, n.key, n.key) && Lawful(cmp, a.key, n.key, n.key) && Lawful(cmp, n.key, a.key, a.key);
    if a in Nodes(t.left) {
      NodeKey(n.left, t.left, a);
      var i :| 0 <= i < |l| && l[i] == (a.key, a.val);
      assert s[i] == l[i];
    }
    if a in Nodes(t.right) {
      NodeKey(n.right, t.right, a);
      var i :| 0 <= i < |r| && r[i] == (a.key, a.val);
      assert s[|l| + 1 + i] == r[i];
    }
  }

  /** avl_remove_wrk: unlink the node `a`, which is part of the tree. */
  method RemoveWrk<K(==, !new), V>(root: AvlNode<K, V>, a: AvlNode<K, V>, cmp: (K, K) -> int, ghost t: Tree<K, V>)
    returns (r: AvlNode?<K, V>, shrank: bool, ghost u: Tree<K, V>)
    requires TotalOrder(cmp) && Rep(root, t) && Distinct(t) && Avl(t) && Ascending(Inorder(t), cmp) && a in Nodes(t)
    modifies Nodes(t)`left, Nodes(t)`right, Nodes(t)`balance
    ensures Rep(r, u) && Removed(t, a, a.key, u, shrank) && RootKept(t, a, a.key, u)
    decreases t, if t.Fork? && t.node == a then 4 else 1
  {
    var cmpres := cmp(root.key, a.key);
    NodeSide(root, t, a, cmp);
    if cmpres > 0 {
      r, shrank, u := RemoveLeft(root, a, cmp, t);
    } else if cmpres < 0 {
      r, shrank, u := RemoveRight(root, a, cmp, t);
    } else {
      assert root == a;
      r, shrank, u := RemoveRootWrk(root, cmp, t);
    }
  }

  lemma {:induction false} LeftShrankRemoved<K(!new), V>(t: Tree<K, V>, a: AvlNode<K, V>, k: K, s: Tree<K, V>,
                                              ch: bool, u: Tree<K, V>, shrank: bool)
    requires t.Fork? && Distinct(t) && Avl(t) && a in Nodes(t.left) && Removed(t.left, a, k, s, ch)
    requires var t1 := t.(left := s);
      && Distinct(t1) && Nodes(t1) == Nodes(t) - {a} && Inorder(t1) == Del(Inorder(t), k)
      && Distinct(u) && Nodes(u) == Nodes(t1) && Inorder(u) == Inorder(t1)
      && (!ch ==> !shrank && u == t1)
      && (ch ==> && Avl(u) && Height(u) == Height(t1) + (if t.bal == -1 then 1 else 0) - (if shrank then 1 else 0)
                 && (t.bal != 1 ==> u == t1.(bal := t1.bal + 1)))
    ensures Removed(t, a, k, u, shrank) && RootKept(t, a, k, u)
  {
  }

  method RemoveLeft<K(==, !new), V>(root: AvlNode<K, V>, a: AvlNode<K, V>, cmp: (K, K) -> int, ghost t: Tree<K, V>)
    returns (r: AvlNode<K, V>, shrank: bool, ghost u: Tree<K, V>)
    requires TotalOrder(cmp) && Rep(root, t) && Distinct(t) && Avl(t) && Ascending(Inorder(t), cmp)
    requires t.Fork? && a in Nodes(t.left)
    modifies Nodes(t)`left, Nodes(t)`right, Nodes(t)`balance
    ensures Rep(r, u) && Removed(t, a, a.key, u, shrank) && RootKept(t, a, a.key, u)
    decreases t, 0
  {
    hide Inorder, Del, RootKept, Avl, Height, Ascending;
    ghost var k := a.key;
    assert allocated(Nodes(t));
    AscendingSubtrees(t, cmp);
    NodeKey(root.left, t.left, a);
    ghost var rest := Rep(root.right, t.right);
    var subLeft, ch;
    ghost var s;
    subLeft, ch, s := RemoveWrk(root.left, a, cmp, t.left);
    PruneLeft(t, a, k, cmp, s, ch);
    ghost var kept := Rep(subLeft, s);
    root.left := subLeft;
    assert kept == Rep(root.left, s) && rest == Rep(root.right, t.right);
    r, shrank, u := root, false, t.(left := s);
    assert Rep(r, u);
    if ch {
      r, shrank, u := LeftShrank(root, u);
    }
    LeftShrankRemoved(t, a, k, s, ch, u, shrank);
  }

  lemma {:induction false} RightShrankRemoved<K(!new), V>(t: Tree<K, V>, a: AvlNode<K, V>, k: K, s: Tree<K, V>,
                                              ch: bool, u: Tree<K, V>, shrank: bool)
    requires t.Fork? && Distinct(t) && Avl(t) && a in Nodes(t.right) && Removed(t.right, a, k, s, ch)
    requires var t1 := t.(right := s);
      && Distinct(t1) && Nodes(t1) == Nodes(t) - {a} && Inorder(t1) == Del(Inorder(t), k)
      && Distinct(u) && Nodes(u) == Nodes(t1) && Inorder(u) == Inorder(t1)
      && (!ch ==> !shrank && u == t1)
      && (ch ==> && Avl(u) && Height(u) == Height(t1) + (if t.bal == 1 then 1 else 0) - (if shrank then 1 else 0)
                 && (t.bal != -1 ==> u == t1.(bal := t1.bal - 1)))
    ensures Removed(t, a, k, u, shrank) && RootKept(t, a, k, u)
  {
  }

  method RemoveRight<K(==, !new), V>(root: AvlNode<K, V>, a: AvlNode<K, V>, cmp: (K, K) -> int, ghost t: Tree<K, V>)
    returns (r: AvlNode<K, V>, shrank: bool, ghost u: Tree<K, V>)
    requires TotalOrder(cmp) && Rep(root, t) && Distinct(t) && Avl(t) && Ascending(Inorder(t), cmp)
    requires t.Fork? && a in Nodes(t.right)
    modifies Nodes(t)`left, Nodes(t)`right, Nodes(t)`balance
    ensures Rep(r, u) && Removed(t, a, a.key, u, shrank) && RootKept(t, a, a.key, u)
    decreases t, 0
  {
    hide Inorder, Del, RootKept, Avl, Height, Ascending;
    ghost var k := a.key;
    assert allocated(Nodes(t));
    AscendingSubtrees(t, cmp);
    NodeKey(root.right, t.right, a);
    ghost var rest := Rep(root.left, t.left);
    var subRight, ch;
    ghost var s;
    subRight, ch, s := RemoveWrk(root.right, a, cmp, t.right);
    PruneRight(t, a, k, cmp, s, ch);
    ghost var kept := Rep(subRight, s);
    root.right := subRight;
    assert kept == Rep(root.right, s) && rest == Rep(root.left, t.left);
    r, shrank, u := root, false, t.(right := s);
    assert Rep(r, u);
    if ch {
      r, shrank, u := RightShrank(root, u);
    }
    RightShrankRemoved(t, a, k, s, ch, u, shrank);
  }

  /** Walk right to the node holding the last binding of a non-empty tree. */
  method LastNode<K, V>(root: AvlNode<K, V>, ghost t: Tree<K, V>) returns (a: AvlNode<K, V>)
    requires Rep(root, t)
    ensures a in Nodes(t) && Inorder(t) != [] && Inorder(t)[|Inorder(t)| - 1] == (a.key, a.val)
  {
    a := root;
    ghost var s := t;
    while a.right != null
      invariant Rep(a, s) && Nodes(s) <= Nodes(t)
      invariant Inorder(s) != [] && Inorder(t) != [] && Inorder(s)[|Inorder(s)| - 1] == Inorder(t)[|Inorder(t)| - 1]
      decreases s
    {
      a := a.right;
      s := s.right;
    }
  }

  /** Walk left to the node holding the first binding of a non-empty tree. */
  method FirstNode<K, V>(root: AvlNode<K, V>, ghost t: Tree<K, V>) returns (a: AvlNode<K, V>)
    requires Rep(root, t)
    ensures a in Nodes(t) && Inorder(t) != [] && Inorder(t)[0] == (a.key, a.val)
  {
    a := root;
    ghost var s := t;
    while a.left != null
      invariant Rep(a, s) && Nodes(s) <= Nodes(t)
      invariant Inorder(s) != [] && Inorder(t) != [] && Inorder(s)[0] == Inorder(t)[0]
      decreases s
    {
      a := a.left;
      s := s.left;
    }
  }

  /** Dropping the root's own binding joins what stands on its two sides. */
  lemma {:induction false} DelRoot<K(!new), V>(t: Tree<K, V>, cmp: (K, K) -> int)
    requires t.Fork? && TotalOrder(cmp) && Ascending(Inorder(t), cmp)
    ensures Del(Inorder(t), t.key) == Inorder(t.left) + Inorder(t.right)
  {
    var l, x, r := Inorder(t.left), (t.key, t.val), Inorder(t.right);
    MiddleNot(l, x, r, cmp);
    DelSplit(l, [x] + r, x.0);
    assert Inorder(t) == l + ([x] + r);
    assert Del([x] + r, x.0) == r;
  }

  lemma {:induction false} DelLast<K(!new), V>(s: seq<(K, V)>, cmp: (K, K) -> int)
    requires s != [] && TotalOrder(cmp) && Ascending(s, cmp)
    ensures Del(s, s[|s| - 1].0) == s[..|s| - 1]
  {
    var n := |s| - 1;
    assert s == s[..n] + [s[n]] + [] == s[..n] + [s[n]];
    MiddleNot(s[..n], s[n], [], cmp);
    DelSplit(s[..n], [s[n]], s[n].0);
  }

  ghost predicate IsNeighbour<K, V>(t: Tree<K, V>, a: AvlNode<K, V>, b: (K, V)) {
    && t.Fork? && t.left.Fork? && t.right.Fork?
    && if t.bal < 0 then
         var l := Inorder(t.left); a in Nodes(t.left) && l != [] && l[|l| - 1] == b
       else
         var r := Inorder(t.right); a in Nodes(t.right) && r != [] && r[0] == b
  }

  lemma {:induction false} PromoteOrder<K(!new), V>(t: Tree<K, V>, a: AvlNode<K, V>, b: (K, V), cmp: (K, K) -> int,
                                                    w: Tree<K, V>)
    requires TotalOrder(cmp) && Ascending(Inorder(t), cmp)
    requires IsNeighbour(t, a, b) && RootKept(t, a, b.0, w)
    ensures w.Fork? && Inorder(w.(node := a, key := b.0, val := b.1)) == Del(Inorder(t), t.key)
  {
    hide Height, Avl, Nodes, Ascending, Del;
    DelRoot(t, cmp);
    AscendingSubtrees(t, cmp);
    var l, r, u := Inorder(t.left), Inorder(t.right), w.(node := a, key := b.0, val := b.1);
    assert Inorder(u) == Inorder(w.left) + [b] + Inorder(w.right);
    if t.bal < 0 {
      DelLast(l, cmp);
      Refill(l, r, b);
    } else {
      DelFirst(r, b.0);
      Refill2(l, r, b);
    }
  }

  lemma Refill<K, V>(l: seq<(K, V)>, r: seq<(K, V)>, b: (K, V))
    requires l != [] && l[|l| - 1] == b
    ensures l[..|l| - 1] + [b] + r == l + r
  {
  }

  lemma Refill2<K, V>(l: seq<(K, V)>, r: seq<(K, V)>, b: (K, V))
    requires r != [] && r[0] == b
    ensures l + [b] + r[1..] == l + r
  {
  }

  lemma DelFirst<K, V>(s: seq<(K, V)>, k: K)
    requires s != [] && s[0].0 == k
    ensures Del(s, k) == s[1..]
  {
  }

  /** The neighbour `a` unlinked from below takes over the root's place. */
  lemma {:induction false} Promote<K(!new), V>(t: Tree<K, V>, a: AvlNode<K, V>, b: (K, V), cmp: (K, K) -> int,
                                               w: Tree<K, V>, ch: bool)
    requires Distinct(t) && Avl(t) && TotalOrder(cmp) && Ascending(Inorder(t), cmp)
    requires IsNeighbour(t, a, b) && Removed(t, a, b.0, w, ch) && RootKept(t, a, b.0, w)
    ensures w.Fork? && Distinct(w) && a !in Nodes(w)
    ensures Removed(t, t.node, t.key, w.(node := a, key := b.0, val := b.1), w.bal == 0 && ch)
  {
    hide Inorder, Del;
    PromoteOrder(t, a, b, cmp, w);
  }

  lemma {:induction false} MiddleNot<K(!new), V>(l: seq<(K, V)>, x: (K, V), r: seq<(K, V)>, cmp: (K, K) -> int)
    requires TotalOrder(cmp) && Ascending(l + [x] + r, cmp)
    ensures forall p | p in l :: p.0 != x.0
  {
    var s := l + [x] + r;
    forall p | p in l
      ensures p.0 != x.0
    {
      var i :| 0 <= i < |l| && l[i] == p;
      assert s[i] == p && s[|l|] == x;
      assert Lawful(cmp, x.0, x.0, x.0);
    }
  }

  method TakePlace<K, V>(top: AvlNode<K, V>, a: AvlNode<K, V>, ghost w: Tree<K, V>)
    requires Rep(top, w) && Distinct(w) && a !in Nodes(w)
    modifies a`left, a`right, a`balance
    ensures Rep(a, w.(node := a, key := a.key, val := a.val))
  {
    assert allocated(Nodes(w));
    ghost var keptLeft, keptRight := Rep(top.left, w.left), Rep(top.right, w.right);
    a.left := top.left;
    a.right := top.right;
    a.balance := top.balance;
    assert keptLeft == Rep(a.left, w.left) && keptRight == Rep(a.right, w.right);
  }

  lemma {:induction false} OneChild<K(!new), V>(t: Tree<K, V>, cmp: (K, K) -> int)
    requires t.Fork? && Distinct(t) && Avl(t) && TotalOrder(cmp) && Ascending(Inorder(t), cmp)
    ensures t.left.Leaf? ==> Removed(t, t.node, t.key, t.right, true)
    ensures t.right.Leaf? ==> Removed(t, t.node, t.key, t.left, true)
  {
    DelRoot(t, cmp);
  }

  /** The two-child case: the in-order neighbour on the taller side moves into the root's place. */
  method ReplaceRoot<K(==, !new), V>(root: AvlNode<K, V>, cmp: (K, K) -> int, ghost t: Tree<K, V>)
    returns (a: AvlNode<K, V>, shrank: bool, ghost u: Tree<K, V>)
    requires TotalOrder(cmp) && Rep(root, t) && Distinct(t) && Avl(t) && Ascending(Inorder(t), cmp)
    requires root.left != null && root.right != null
    modifies Nodes(t)`left, Nodes(t)`right, Nodes(t)`balance
    ensures Rep(a, u) && Removed(t, root, root.key, u, shrank)
    decreases t, 2
  {
    hide Inorder, Del, RootKept, Avl, Height, Ascending, Removed;
    assert allocated(Nodes(t));
    ghost var whole := Rep(root, t);
    if root.balance < 0 {
      a := LastNode(root.left, t.left);
    } else {
      a := FirstNode(root.right, t.right);
    }
    ghost var b := (a.key, a.val);
    assert IsNeighbour(t, a, b) && a != root && whole == Rep(root, t);
    var top, ch;
    ghost var w;
    top, ch, w := RemoveWrk(root, a, cmp, t);
    Promote(t, a, b, cmp, w, ch);
    TakePlace(top, a, w);
    u := w.(node := a, key := a.key, val := a.val);
    return a, a.balance == 0 && ch, u;
  }

  /** avl_removeroot_wrk: unlink the root itself. */
  method RemoveRootWrk<K(==, !new), V>(root: AvlNode<K, V>, cmp: (K, K) -> int, ghost t: Tree<K, V>)
    returns (r: AvlNode?<K, V>, shrank: bool, ghost u: Tree<K, V>)
    requires TotalOrder(cmp) && Rep(root, t) && Distinct(t) && Avl(t) && Ascending(Inorder(t), cmp)
    modifies Nodes(t)`left, Nodes(t)`right, Nodes(t)`balance
    ensures Rep(r, u) && Removed(t, root, root.key, u, shrank)
    decreases t, 3
  {
    if root.left == null {
      OneChild(t, cmp);
      return root.right, true, t.right;
    }
    if root.right == null {
      OneChild(t, cmp);
      return root.left, true, t.left;
    }
    hide *;
    r, shrank, u := ReplaceRoot(root, cmp, t);
  }
}
