/** The public face of the map in cg_merge.c: lookup, insertion, deletion, the explicit-stack
    iterator with its 32 slots. */
module WordFMap {
  import opened Wrappers
  import opened WordFM

  // ---------------------------------------------------------------------------
  // How deep an AVL tree can be

  /** Fewest nodes an AVL tree of a given height can have. */
  function MinNodes(h: nat): nat {
    if h < 2 then h else 1 + MinNodes(h - 1) + MinNodes(h - 2)
  }

  lemma {:induction false} MinNodesMonotone(g: nat, h: nat)
    requires g <= h
    ensures MinNodes(g) <= MinNodes(h)
    decreases h - g
  {
    if g < h {
      MinNodesMonotone(g + 1, h);
    }
  }

  lemma {:induction false} AvlSize<K, V>(t: Tree<K, V>)
    requires Avl(t)
    ensures |Inorder(t)| >= MinNodes(Height(t))
  {
    if t.Fork? {
      AvlSize(t.left);
      AvlSize(t.right);
      var h := Height(t);
      MinNodesMonotone(if h < 2 then 0 else h - 2, Height(t.left));
      MinNodesMonotone(if h < 2 then 0 else h - 2, Height(t.right));
    }
  }

  lemma {:induction false} MinNodes33()
    ensures MinNodes(33) == 9227464
  {
    assert MinNodes(3) == 4 && MinNodes(4) == 7;
    assert MinNodes(6) == 20 && MinNodes(7) == 33;
    assert MinNodes(9) == 88 && MinNodes(10) == 143;
    assert MinNodes(12) == 376 && MinNodes(13) == 609;
    assert MinNodes(15) == 1596 && MinNodes(16) == 2583;
    assert MinNodes(18) == 6764 && MinNodes(19) == 10945;
    assert MinNodes(21) == 28656 && MinNodes(22) == 46367;
    assert MinNodes(24) == 121392 && MinNodes(25) == 196417;
    assert MinNodes(27) == 514228 && MinNodes(28) == 832039;
    assert MinNodes(30) == 2178308 && MinNodes(31) == 3524577;
  }

  const WFM_STKMAX := 32
  const MAX_ITERABLE := 9227464

  /** Below this many bindings the tree is too shallow to overrun the iterator stack. */
  lemma HeightBound<K, V>(t: Tree<K, V>)
    requires Avl(t) && |Inorder(t)| < MAX_ITERABLE
    ensures Height(t) <= WFM_STKMAX
  {
    hide MinNodes, Height, Avl, Inorder;
    AvlSize(t);
    if Height(t) > WFM_STKMAX {
      MinNodes33();
      MinNodesMonotone(33, Height(t));
    }
  }

  /** The slots a traversal takes: a node waits on the stack while its left side is visited, but has left it by the
      time its right side is. */
  ghost function LeftDepth<K, V>(t: Tree<K, V>): nat {
    if t.Leaf? then 0 else Max(1 + LeftDepth(t.left), LeftDepth(t.right))
  }

  function Max(x: nat, y: nat): nat {
    if x < y then y else x
  }

  lemma {:induction false} LeftDepthAtMost<K, V>(t: Tree<K, V>)
    ensures LeftDepth(t) <= Height(t)
  {
    if t.Fork? {
      LeftDepthAtMost(t.left);
      LeftDepthAtMost(t.right);
    }
  }

  /** So fewer than 9227464 bindings never take more than 32. */
  lemma SlotsSuffice<K, V>(t: Tree<K, V>)
    requires Avl(t) && |Inorder(t)| < MAX_ITERABLE
    ensures LeftDepth(t) <= WFM_STKMAX
  {
    HeightBound(t);
    LeftDepthAtMost(t);
  }

  // ---------------------------------------------------------------------------
  // The iterator stack

  /** A pending visit: tag 1 visits the whole subtree, 2 its root and right part, 3 its right part. */
  datatype Visit<K, V> = Visit(sub: Tree<K, V>, tag: int)

  ghost function Rest<K, V>(f: Visit<K, V>): seq<(K, V)> {
    if f.tag == 1 then Inorder(f.sub)
    else if f.sub.Leaf? then []
    else if f.tag == 2 then [(f.sub.key, f.sub.val)] + Inorder(f.sub.right)
    else Inorder(f.sub.right)
  }

  /** What the iterator has still to yield. */
  ghost function Remaining<K, V>(fs: seq<Visit<K, V>>): seq<(K, V)> {
    if fs == [] then [] else Rest(fs[|fs| - 1]) + Remaining(fs[..|fs| - 1])
  }

  /** Loop measure of the traversal. */
  ghost function Cost<K, V>(f: Visit<K, V>): nat {
    if f.sub.Leaf? then 0
    else 3 * |Inorder(f.sub.right)| +
         (if f.tag == 1 then 3 * |Inorder(f.sub.left)| + 3 else if f.tag == 2 then 2 else 1)
  }

  ghost function Work<K, V>(fs: seq<Visit<K, V>>): nat {
    if fs == [] then 0 else Work(fs[..|fs| - 1]) + Cost(fs[|fs| - 1])
  }

  ghost predicate Sub<K, V>(s: Tree<K, V>, t: Tree<K, V>) {
    s == t || (t.Fork? && (Sub(s, t.left) || Sub(s, t.right)))
  }

  lemma {:induction false} SubRep<K, V>(n: AvlNode?<K, V>, s: Tree<K, V>, t: Tree<K, V>)
    requires Rep(n, t) && Sub(s, t) && s.Fork?
    ensures Rep(s.node, s) && Sub(s.left, t) && Sub(s.right, t)
  {
    if s == t {
      assert Sub(s.left, s.left) && Sub(s.right, s.right);
    } else if Sub(s, t.left) {
      SubRep(n.left, s, t.left);
    } else {
      SubRep(n.right, s, t.right);
    }
  }

  /** Pending visits are visits of subtrees. */
  ghost predicate Stacked<K, V>(fs: seq<Visit<K, V>>, t: Tree<K, V>) {
    forall i :: 0 <= i < |fs| ==> fs[i].sub.Fork? && Sub(fs[i].sub, t) && 1 <= fs[i].tag <= 3
  }

  /** How many slots a pending visit will have taken, its own included, by the time it is done */
  ghost function Slots<K, V>(f: Visit<K, V>): nat {
    if f.tag == 1 || f.sub.Leaf? then LeftDepth(f.sub) else Max(1, LeftDepth(f.sub.right))
  }

  /** The traversal can go on to its end without overrunning the stack. */
  ghost predicate Fits<K, V>(fs: seq<Visit<K, V>>) {
    forall i :: 0 <= i < |fs| ==> i + Slots(fs[i]) <= WFM_STKMAX
  }

  lemma FitsPushed<K, V>(fs: seq<Visit<K, V>>, f: Visit<K, V>)
    ensures Fits(fs + [f]) <==> Fits(fs) && |fs| + Slots(f) <= WFM_STKMAX
  {
    var z := fs + [f];
    assert z[|fs|] == f && forall i :: 0 <= i < |fs| ==> z[i] == fs[i];
  }

  /** A round of the traversal changes nothing about that. */
  lemma VisitedFits<K, V>(gs: seq<Visit<K, V>>, s: Tree<K, V>, tag: int)
    requires s.Fork? && 1 <= tag <= 3 && |gs| < WFM_STKMAX
    ensures Fits(gs + [Visit(s, tag)]) <==> Fits(Visited(gs, s, tag))
  {
    hide Fits;
    FitsPushed(gs, Visit(s, tag));
    if tag == 1 {
      FitsPushed(gs, Visit(s, 2));
      if s.left.Fork? {
        FitsPushed(gs + [Visit(s, 2)], Visit(s.left, 1));
      } else {
        assert LeftDepth(s.left) == 0;
        assert Visited(gs, s, tag) == gs + [Visit(s, 2)];
      }
    } else if tag == 2 {
      FitsPushed(gs, Visit(s, 3));
    } else if s.right.Fork? {
      FitsPushed(gs, Visit(s.right, 1));
    } else {
      assert Visited(gs, s, tag) == gs;
    }
  }

  /** A stack that is too tall does not fit. */
  lemma TooTall<K, V>(fs: seq<Visit<K, V>>, t: Tree<K, V>)
    requires |fs| > WFM_STKMAX && Stacked(fs, t)
    ensures !Fits(fs)
  {
    assert Slots(fs[WFM_STKMAX]) >= 1;
  }

  lemma {:induction false} Pushed<K, V>(fs: seq<Visit<K, V>>, f: Visit<K, V>)
    ensures Remaining(fs + [f]) == Rest(f) + Remaining(fs)
    ensures Work(fs + [f]) == Work(fs) + Cost(f)
  {
    assert (fs + [f])[..|fs|] == fs;
  }

  /** What popping a visit and pushing its successors does to the stack. */
  ghost function Visited<K, V>(gs: seq<Visit<K, V>>, s: Tree<K, V>, tag: int): seq<Visit<K, V>>
    requires s.Fork?
  {
    if tag == 1 then gs + [Visit(s, 2)] + (if s.left.Fork? then [Visit(s.left, 1)] else [])
    else if tag == 2 then gs + [Visit(s, 3)]
    else gs + (if s.right.Fork? then [Visit(s.right, 1)] else [])
  }

  lemma {:induction false} VisitedLeft<K, V>(gs: seq<Visit<K, V>>, s: Tree<K, V>)
    requires s.Fork?
    ensures Remaining(gs + [Visit(s, 1)]) == Remaining(Visited(gs, s, 1))
    ensures Work(Visited(gs, s, 1)) < Work(gs + [Visit(s, 1)])
  {
    hide Remaining, Work;
    var r := Remaining(gs);
    Pushed(gs, Visit(s, 1));
    Pushed(gs, Visit(s, 2));
    if s.left.Fork? {
      Pushed(gs + [Visit(s, 2)], Visit(s.left, 1));
      assert Inorder(s) + r == Inorder(s.left) + ([(s.key, s.val)] + Inorder(s.right) + r);
    } else {
      assert Visited(gs, s, 1) == gs + [Visit(s, 2)];
      assert Inorder(s) == [(s.key, s.val)] + Inorder(s.right);
    }
  }

  lemma {:induction false} VisitedRemaining<K, V>(gs: seq<Visit<K, V>>, s: Tree<K, V>, tag: int)
    requires s.Fork? && 1 <= tag <= 3
    ensures var before, after := gs + [Visit(s, tag)], Visited(gs, s, tag);
      && Remaining(before) == (if tag == 2 then [(s.key, s.val)] + Remaining(after) else Remaining(after))
      && Work(after) < Work(before)
  {
    hide Remaining, Work;
    Pushed(gs, Visit(s, tag));
    if tag == 1 {
      VisitedLeft(gs, s);
    } else if tag == 2 {
      Pushed(gs, Visit(s, 3));
    } else if s.right.Fork? {
      Pushed(gs, Visit(s.right, 1));
    } else {
      assert Visited(gs, s, tag) == gs;
    }
  }

  // ---------------------------------------------------------------------------
  // Shapes

  /** Where the keys of a tree are */
  datatype Shape<K> = Bare | Branch(left: Shape<K>, key: K, right: Shape<K>)

  ghost function ShapeOf<K, V>(t: Tree<K, V>): Shape<K> {
    if t.Leaf? then Bare else Branch(ShapeOf(t.left), t.key, ShapeOf(t.right))
  }

  function Levels<K>(f: Shape<K>): nat {
    if f.Bare? then 0 else 1 + Max(Levels(f.left), Levels(f.right))
  }

  function Size<K>(f: Shape<K>): nat {
    if f.Bare? then 0 else Size(f.left) + 1 + Size(f.right)
  }

  /** LeftDepth, seen from the shape */
  function Slanted<K>(f: Shape<K>): nat {
    if f.Bare? then 0 else Max(1 + Slanted(f.left), Slanted(f.right))
  }

  lemma {:induction false} ShapeSlanted<K, V>(t: Tree<K, V>)
    ensures Slanted(ShapeOf(t)) == LeftDepth(t)
  {
    if t.Fork? {
      ShapeSlanted(t.left);
      ShapeSlanted(t.right);
    }
  }

  ghost predicate Balanced<K>(f: Shape<K>) {
    f.Branch? ==> Balanced(f.left) && Balanced(f.right) && -1 <= Levels(f.right) - Levels(f.left) <= 1
  }

  /** A key put in its place at the end of a branch */
  function Grow<K>(f: Shape<K>, k: K, cmp: (K, K) -> int): Shape<K> {
    if f.Bare? then Branch(Bare, k, Bare)
    else if cmp(f.key, k) > 0 then f.(left := Grow(f.left, k, cmp))
    else if cmp(f.key, k) < 0 then f.(right := Grow(f.right, k, cmp))
    else f
  }

  lemma {:induction false} ShapeLevels<K, V>(t: Tree<K, V>)
    ensures Levels(ShapeOf(t)) == Height(t) && Size(ShapeOf(t)) == |Inorder(t)| && (Avl(t) ==> Balanced(ShapeOf(t)))
  {
    if t.Fork? {
      ShapeLevels(t.left);
      ShapeLevels(t.right);
    }
  }

  lemma {:induction false} HangGrows<K, V>(t: Tree<K, V>, a: AvlNode<K, V>, k: K, v: V, cmp: (K, K) -> int)
    ensures ShapeOf(Hang(t, a, k, v, cmp)) == Grow(ShapeOf(t), k, cmp)
    ensures Avl(t) && Balanced(Grow(ShapeOf(t), k, cmp)) ==> Avl(Hang(t, a, k, v, cmp))
  {
    if t.Fork? {
      var u := Hang(t, a, k, v, cmp);
      ShapeLevels(u.left);
      ShapeLevels(u.right);
      if cmp(t.key, k) > 0 {
        HangGrows(t.left, a, k, v, cmp);
      } else if cmp(t.key, k) < 0 {
        HangGrows(t.right, a, k, v, cmp);
      }
    }
  }

  lemma AddedShape<K, V>(t: Tree<K, V>, a: AvlNode<K, V>, k: K, v: V, cmp: (K, K) -> int, u: Tree<K, V>)
    requires Avl(t) && Hung(t, a, k, v, cmp, u)
    ensures Balanced(Grow(ShapeOf(t), k, cmp)) ==> ShapeOf(u) == Grow(ShapeOf(t), k, cmp)
  {
    HangGrows(t, a, k, v, cmp);
  }

  // ---------------------------------------------------------------------------
  // The map object

  class FM<K(==, !new), V> {
    const kCmp: (K, K) -> int
    var root: AvlNode?<K, V>
    var nodeStack: array<AvlNode?<K, V>>
    var numStack: array<int>
    var stackTop: nat
    ghost var tree: Tree<K, V>
    ghost var visits: seq<Visit<K, V>>

    ghost predicate Valid()
      reads this`root, this`tree, this`nodeStack, this`numStack, Nodes(tree)
    {
      && TotalOrder(kCmp) && Rep(root, tree) && Distinct(tree) && Avl(tree)
      && Ascending(Inorder(tree), kCmp)
      && nodeStack.Length == WFM_STKMAX && numStack.Length == WFM_STKMAX
    }

    /** The finite map this object stands for. */
    ghost function Contents(): map<K, V>
      reads this`tree
    {
      ToMap(Inorder(tree))
    }

    ghost predicate Iterating()
      reads this`stackTop, this`visits, this`tree, this`nodeStack, this`numStack, nodeStack, numStack
    {
      && stackTop == |visits| && stackTop <= WFM_STKMAX == nodeStack.Length == numStack.Length
      && Stacked(visits, tree)
      && forall i :: 0 <= i < stackTop ==> nodeStack[i] == visits[i].sub.node && numStack[i] == visits[i].tag
    }

    /** newFM / initFM */
    constructor (cmp: (K, K) -> int)
      requires TotalOrder(cmp)
      ensures Valid() && Contents() == map[] && tree == Leaf && kCmp == cmp
      ensures fresh(nodeStack) && fresh(numStack) && stackTop == 0
    {
      kCmp := cmp;
      root := null;
      nodeStack := new AvlNode?<K, V>[WFM_STKMAX](_ => null);
      numStack := new int[WFM_STKMAX](_ => 0);
      stackTop := 0;
      tree := Leaf;
      visits := [];
    }

    /** addToFM */
    method Add(k: K, v: V)
      requires Valid()
      modifies this`root, this`tree, Nodes(tree)
      ensures Valid() && fresh(Nodes(tree) - old(Nodes(tree)))
      ensures Inorder(tree) == Put(old(Inorder(tree)), k, v, kCmp)
      ensures Contents() == old(Contents())[k := v]
      ensures var f := Grow(ShapeOf(old(tree)), k, kCmp);
        Balanced(f) ==> ShapeOf(tree) == f
    {
      hide Inorder, Put, ToMap, Avl, Ascending, Distinct, Find, Height, ShapeOf, Grow, Balanced, Hung;
      ghost var s := Inorder(tree);
      assert allocated(Nodes(tree));
      ghost var whole := Rep(root, tree);
      var node := new AvlNode(k, v);
      assert whole == Rep(root, tree);
      var r, grew, oldV;
      ghost var u;
      r, grew, oldV, u := InsertWrk(root, node, kCmp, tree);
      AddedShape(tree, node, k, v, kCmp, u);
      root := r;
      ghost var kept := Rep(r, u);
      tree := u;
      assert kept == Rep(root, tree);
      PutAscending(s, k, v, kCmp);
      PutMap(s, k, v, kCmp);
    }

    /** avl_find_node */
    method FindNode(k: K) returns (n: AvlNode?<K, V>)
      requires Valid()
      ensures n == null ==> Find(Inorder(tree), k) == None
      ensures n != null ==> n in Nodes(tree) && n.key == k && Find(Inorder(tree), k) == Some(n.val)
    {
      n := root;
      ghost var s := tree;
      while n != null
        invariant Rep(n, s) && Nodes(s) <= Nodes(tree) && Ascending(Inorder(s), kCmp)
        invariant Find(Inorder(s), k) == Find(Inorder(tree), k)
        decreases s
      {
        var cmpres := kCmp(n.key, k);
        AscendingSubtrees(s, kCmp);
        FindSplit(Inorder(s.left), (s.key, s.val), Inorder(s.right), k, kCmp);
        if cmpres > 0 {
          n := n.left;
          s := s.left;
        } else if cmpres < 0 {
          n := n.right;
          s := s.right;
        } else {
          assert Lawful(kCmp, n.key, k, k);
          return;
        }
      }
    }

    /** lookupFM */
    method Lookup(k: K) returns (v: Option<V>)
      requires Valid()
      ensures v == if k in Contents() then Some(Contents()[k]) else None
    {
      var node := FindNode(k);
      FindMap(Inorder(tree), k);
      v := if node == null then None else Some(node.val);
    }

    /** delFromFM */
    method Delete(k: K) returns (oldV: Option<V>)
      requires Valid()
      modifies this`root, this`tree, Nodes(tree)
      ensures Valid() && Nodes(tree) <= old(Nodes(tree))
      ensures Contents() == old(Contents()) - {k}
      ensures oldV == if k in old(Contents()) then Some(old(Contents())[k]) else None
    {
      hide Inorder, Del, ToMap, Avl, Ascending, Distinct, Find, Height, RootKept;
      ghost var s := Inorder(tree);
      assert allocated(Nodes(tree));
      ghost var whole := Rep(root, tree);
      var node := FindNode(k);
      assert whole == Rep(root, tree);
      FindMap(s, k);
      if node == null {
        return None;
      }
      DelAscending(s, k, kCmp);
      DelMap(s, k, kCmp);
      var r, shrank;
      ghost var u;
      r, shrank, u := RemoveWrk(root, node, kCmp, tree);
      root := r;
      ghost var kept := Rep(r, u);
      tree := u;
      assert kept == Rep(root, tree);
      return Some(node.val);
    }

    /** stackClear */
    method StackClear()
      requires nodeStack.Length == WFM_STKMAX && numStack.Length == WFM_STKMAX
      modifies nodeStack, numStack, this`stackTop, this`visits
      ensures stackTop == 0 && visits == []
    {
      for i := 0 to WFM_STKMAX {
        nodeStack[i] := null;
        numStack[i] := 0;
      }
      stackTop := 0;
      visits := [];
    }

    /** stackPush; `ok` tells whether the assertion that a slot is free holds. */
    method StackPush(n: AvlNode<K, V>, i: int, ghost s: Tree<K, V>) returns (ok: bool)
      requires Iterating() && 1 <= i <= 3 && s.Fork? && n == s.node && Sub(s, tree)
      modifies nodeStack, numStack, this`stackTop, this`visits
      ensures Iterating() && ok == (old(stackTop) < WFM_STKMAX)
      ensures visits == if ok then old(visits) + [Visit(s, i)] else old(visits)
    {
      ok := stackTop < WFM_STKMAX;
      if ok {
        nodeStack[stackTop] := n;
        numStack[stackTop] := i;
        stackTop := stackTop + 1;
        visits := visits + [Visit(s, i)];
      }
    }

    /** stackPop */
    method StackPop() returns (n: AvlNode?<K, V>, i: int)
      requires Iterating()
      modifies nodeStack, numStack, this`stackTop, this`visits
      ensures Iterating()
      ensures old(visits) == [] ==> n == null && visits == []
      ensures old(visits) != [] ==>
        var f := old(visits)[|old(visits)| - 1];
        && n == f.sub.node && i == f.tag && visits == old(visits)[..|old(visits)| - 1]
        && f.sub.Fork? && Sub(f.sub, tree) && 1 <= i <= 3
    {
      if stackTop > 0 {
        stackTop := stackTop - 1;
        n := nodeStack[stackTop];
        i := numStack[stackTop];
        nodeStack[stackTop] := null;
        numStack[stackTop] := 0;
        visits := visits[..|visits| - 1];
      } else {
        n, i := null, 0;
      }
    }

    /** initIterFM */
    method InitIter()
      requires Valid()
      modifies nodeStack, numStack, this`stackTop, this`visits
      ensures Valid() && Iterating() && Remaining(visits) == Inorder(tree)
      ensures Fits(visits) <==> LeftDepth(tree) <= WFM_STKMAX
    {
      assert allocated(Nodes(tree));
      ghost var valid := Valid();
      StackClear();
      assert valid == Valid();
      if root != null {
        var ok := StackPush(root, 1, tree);
        assert valid == Valid();
        Pushed([], Visit(tree, 1));
        FitsPushed([], Visit(tree, 1));
      }
    }

    /** The three cases of the traversal loop. */
    method VisitNode(n: AvlNode<K, V>, i: int, ghost s: Tree<K, V>) returns (ok: bool)
      requires Iterating() && stackTop < WFM_STKMAX && Rep(n, s) && s.Fork? && 1 <= i <= 3
      requires Sub(s, tree) && Sub(s.left, tree) && Sub(s.right, tree)
      modifies nodeStack, numStack, this`stackTop, this`visits
      ensures Iterating() && ok == (|Visited(old(visits), s, i)| <= WFM_STKMAX)
      ensures ok ==> visits == Visited(old(visits), s, i)
      ensures Stacked(Visited(old(visits), s, i), tree)
    {
      assert allocated(Nodes(s));
      ok := true;
      match i {
        case 1 =>
          ok := StackPush(n, 2, s);
          if n.left != null {
            ok := StackPush(n.left, 1, s.left);
          }
        case 2 =>
          ok := StackPush(n, 3, s);
        case 3 =>
          if n.right != null {
            ok := StackPush(n.right, 1, s.right);
          }
        case _ =>
          assert false;
      }
    }

    /** One round of the traversal loop: pop a visit and push what it leads to. */
    method Round() returns (ok: bool, n: AvlNode?<K, V>, i: int)
      requires Valid() && Iterating()
      modifies nodeStack, numStack, this`stackTop, this`visits
      ensures Valid() && Iterating()
      ensures old(visits) == [] ==> ok && n == null && visits == []
      ensures old(visits) != [] ==>
        var f := old(visits)[|old(visits)| - 1];
        var next := Visited(old(visits)[..|old(visits)| - 1], f.sub, i);
        && f.sub.Fork? && n == f.sub.node && i == f.tag && 1 <= i <= 3 && n.key == f.sub.key && n.val == f.sub.val
        && ok == (|next| <= WFM_STKMAX) && Stacked(next, tree) && (ok ==> visits == next)
    {
      hide Inorder, Avl, Distinct, Ascending, TotalOrder, Stacked, Visited, Sub;
      assert allocated(Nodes(tree));
      ghost var valid, fs := Valid(), visits;
      n, i := StackPop();
      ok := true;
      assert valid == Valid();
      if n != null {
        ghost var s := fs[|fs| - 1].sub;
        SubRep(root, s, tree);
        ghost var here := Rep(n, s);
        assert allocated(Nodes(s));
        ok := VisitNode(n, i, s);
        assert valid == Valid() && here == Rep(n, s);
      }
    }

    /** A round of the loop, seen as progress through the bindings that remain */
    method Progress() returns (ok: bool, n: AvlNode?<K, V>, i: int)
      requires Valid() && Iterating()
      modifies nodeStack, numStack, this`stackTop, this`visits
      ensures Valid() && Iterating()
      ensures if ok then Fits(visits) <==> old(Fits(visits)) else !old(Fits(visits))
      ensures n == null ==>
        ok && old(Remaining(visits)) == [] && Remaining(visits) == [] && old(Fits(visits)) && stackTop == 0
      ensures ok && n != null ==> Work(visits) < old(Work(visits))
      ensures ok && n != null ==>
        old(Remaining(visits)) == (if i == 2 then [(n.key, n.val)] else []) + Remaining(visits)
    {
      hide Valid, Inorder, Visited, Work, Fits, Stacked;
      ghost var fs := visits;
      ok, n, i := Round();
      if fs != [] {
        ghost var gs, s := fs[..|fs| - 1], fs[|fs| - 1].sub;
        assert fs == gs + [Visit(s, i)];
        VisitedRemaining(gs, s, i);
        VisitedFits(gs, s, i);
        if !ok {
          TooTall(Visited(gs, s, i), tree);
        }
      } else {
        NothingLeft(fs);
      }
    }

    /** nextIterFM; `ok` tells whether its assertions hold. */
    method NextIter() returns (ok: bool, r: Option<(K, V)>)
      requires Valid() && Iterating()
      modifies nodeStack, numStack, this`stackTop, this`visits
      ensures Valid() && Iterating()
      ensures if ok then Fits(visits) <==> old(Fits(visits)) else !old(Fits(visits))
      ensures ok ==>
        var rem := old(Remaining(visits));
        if rem == [] then r == None && Remaining(visits) == [] && Fits(visits) && stackTop == 0
        else r == Some(rem[0]) && Remaining(visits) == rem[1..]
    {
      hide Valid, Iterating, Inorder, Remaining, Work, Fits;
      ghost var rem := Remaining(visits);
      while true
        invariant Valid() && Iterating() && Remaining(visits) == rem && (Fits(visits) <==> old(Fits(visits)))
        decreases Work(visits)
      {
        var n, i;
        ok, n, i := Progress();
        if !ok || n == null {
          return ok, None;
        }
        if i == 2 {
          return true, Some((n.key, n.val));
        }
      }
    }

    /** The initIterFM / nextIterFM loop with which cg_merge.c walks a whole map: the assertions hold throughout
        exactly if the map's tree takes at most 32 slots, and then every binding is met once, in order. */
    method Walk() returns (ok: bool, s: seq<(K, V)>)
      requires Valid()
      modifies nodeStack, numStack, this`stackTop, this`visits
      ensures Valid() && (ok <==> LeftDepth(tree) <= WFM_STKMAX)
      ensures ok ==> s == Inorder(tree) && Ascending(s, kCmp) && ToMap(s) == Contents() && stackTop == 0
    {
      hide Inorder, Ascending, Avl, Distinct, TotalOrder, Iterating, Remaining, ToMap, Rep, Fits, LeftDepth;
      InitIter();
      s := [];
      var next;
      ok, next := NextIter();
      while ok && next.Some?
        invariant Valid() && Iterating()
        invariant if ok then Fits(visits) <==> LeftDepth(tree) <= WFM_STKMAX else LeftDepth(tree) > WFM_STKMAX
        invariant ok ==> s + (if next.Some? then [next.value] else []) + Remaining(visits) == Inorder(tree)
        invariant ok && next.None? ==> Remaining(visits) == [] && Fits(visits) && stackTop == 0
        decreases ok, |Remaining(visits)|, next.Some?
      {
        s := s + [next.value];
        ok, next := NextIter();
      }
    }
  }

  lemma NothingLeft<K, V>(fs: seq<Visit<K, V>>)
    requires fs == []
    ensures Remaining(fs) == [] && Fits(fs)
  {
  }

  // ---------------------------------------------------------------------------
  // A map that overruns the stack

  function Minus(a: int, b: int): int {
    a - b
  }

  lemma MinusOrder()
    ensures TotalOrder(Minus)
  {
    forall a, b, c
      ensures Lawful(Minus, a, b, c)
    {
    }
  }

  /** In order, with keys from lo up to hi */
  ghost predicate Within(f: Shape<int>, lo: int, hi: int) {
    f.Branch? ==> lo <= f.key < hi && Within(f.left, lo, f.key) && Within(f.right, f.key + 1, hi)
  }

  /** Without one of the ends of its longest branches, and the key that was there */
  function Peel<K>(f: Shape<K>): (Shape<K>, K)
    requires f.Branch?
  {
    if f.left.Bare? && f.right.Bare? then (Bare, f.key)
    else if Levels(f.left) >= Levels(f.right) then
      var p := Peel(f.left);
      (f.(left := p.0), p.1)
    else
      var p := Peel(f.right);
      (f.(right := p.0), p.1)
  }

  /** A balanced shape is its peeled shape with the key put back. */
  lemma {:induction false} PeelGrows(f: Shape<int>, lo: int, hi: int)
    requires f.Branch? && Balanced(f) && Within(f, lo, hi)
    ensures var p := Peel(f);
      && Grow(p.0, p.1, Minus) == f && Size(p.0) < Size(f)
      && Balanced(p.0) && Within(p.0, lo, hi) && lo <= p.1 < hi
      && Levels(f) - 1 <= Levels(p.0) <= Levels(f)
  {
    if f.left.Bare? && f.right.Bare? {
    } else if Levels(f.left) >= Levels(f.right) {
      PeelGrows(f.left, lo, f.key);
    } else {
      PeelGrows(f.right, f.key + 1, hi);
    }
  }

  /** Every balanced shape arises by adding its keys one after the other. */
  method Build(f: Shape<int>, ghost lo: int, ghost hi: int) returns (m: FM<int, int>)
    requires Balanced(f) && Within(f, lo, hi)
    ensures fresh(m) && fresh(m.nodeStack) && fresh(m.numStack) && fresh(Nodes(m.tree))
    ensures m.Valid() && m.kCmp == Minus && ShapeOf(m.tree) == f
    decreases Size(f)
  {
    hide TotalOrder, Minus, Balanced, Within, Grow, Peel, Size, Avl, Distinct, Inorder, Ascending, Nodes;
    if f.Bare? {
      MinusOrder();
      m := new FM(Minus);
      NoNodes(m.tree);
    } else {
      PeelGrows(f, lo, hi);
      var p := Peel(f);
      m := Build(p.0, lo, hi);
      ghost var nodes := Nodes(m.tree);
      assert fresh(nodes);
      label Before:
      m.Add(p.1, 0);
      assert forall o :: o in Nodes(m.tree) - nodes ==> fresh@Before(o);
      assert forall o :: o in Nodes(m.tree) ==> o in nodes || o in Nodes(m.tree) - nodes;
    }
  }

  lemma NoNodes<K, V>(t: Tree<K, V>)
    requires t.Leaf?
    ensures Nodes(t) == {}
  {
  }

  /** A balanced shape of h levels with as few keys as possible, leaning to the left, with keys from lo upwards */
  function Sparse(h: nat, lo: int): Shape<int> {
    if h == 0 then Bare
    else
      var k := lo + MinNodes(h - 1);
      Branch(Sparse(h - 1, lo), k, Sparse(if h == 1 then 0 else h - 2, k + 1))
  }

  lemma {:induction false} SparseIs(h: nat, lo: int)
    ensures SparseShape(Sparse(h, lo), h, lo, lo + MinNodes(h))
  {
    if h > 0 {
      var k, g := lo + MinNodes(h - 1), if h == 1 then 0 else h - 2;
      SparseIs(h - 1, lo);
      SparseIs(g, k + 1);
      assert MinNodes(h) == MinNodes(h - 1) + 1 + MinNodes(g);
      assert Sparse(h, lo) == Branch(Sparse(h - 1, lo), k, Sparse(g, k + 1));
      hide MinNodes, Sparse;
      SparseBranch(Sparse(h - 1, lo), k, Sparse(g, k + 1), h, lo, lo + MinNodes(h));
    }
  }

  ghost predicate SparseShape(f: Shape<int>, h: nat, lo: int, hi: int) {
    Levels(f) == h && Size(f) == hi - lo && Slanted(f) == h && Balanced(f) && Within(f, lo, hi)
  }

  lemma SparseBranch(l: Shape<int>, k: int, r: Shape<int>, h: nat, lo: int, hi: int)
    requires h > 0 && SparseShape(l, h - 1, lo, k) && SparseShape(r, if h == 1 then 0 else h - 2, k + 1, hi)
    ensures SparseShape(Branch(l, k, r), h, lo, hi)
  {
  }

  /** A map of 9227464 different keys, all of them added one after the other, on which the iterator's assertion
      fails: the bound is tight. */
  method BoundIsTight() returns (m: FM<int, int>, ok: bool)
    ensures m.Valid() && |Inorder(m.tree)| == MAX_ITERABLE && Ascending(Inorder(m.tree), Minus)
    ensures LeftDepth(m.tree) == WFM_STKMAX + 1 && !ok
  {
    hide MinNodes, Sparse, Balanced, Within, Avl, Distinct, Ascending, TotalOrder, Inorder, ShapeOf, Size, Slanted;
    hide LeftDepth, Levels;
    SparseIs(33, 0);
    MinNodes33();
    m := Build(Sparse(33, 0), 0, MinNodes(33));
    ShapeLevels(m.tree);
    ShapeSlanted(m.tree);
    var s;
    ok, s := m.Walk();
  }

  lemma {:induction false} FindMap<K, V>(s: seq<(K, V)>, k: K)
    ensures Find(s, k) == if k in ToMap(s) then Some(ToMap(s)[k]) else None
  {
    if s != [] {
      FindMap(s[1..], k);
    }
  }
}
