/** Balanced runs of the shadow call stack: whatever is entered is left again. */
module BalancedRuns {
  import opened Wrappers
  import opened ShadowStack

  /** A run that leaves every call it enters, with time passing and dumps being written anywhere. */
  datatype Run =
    | Done
    | Elapse(delta: Cost, rest: Run)
    | Write(rest: Run)
    | Call(from: Bbcc, jmp: nat, to: Bbcc, spAddr: nat, skip: bool, body: Run, rest: Run)

  predicate WellFormed(r: Run, events: nat) {
    match r
    case Done => true
    case Elapse(delta, rest) => |delta| == events && WellFormed(rest, events)
    case Write(rest) => WellFormed(rest, events)
    case Call(from, jmp, _, _, _, body, rest) =>
      jmp < |from.bb.jmps| && WellFormed(body, events) && WellFormed(rest, events)
  }

  /** A call out of skipped code is attributed to the last exit of the block that entered the skipped code. */
  function Source(r: Run, ns: Option<Bbcc>): (p: (Bbcc, nat))
    requires r.Call? && r.jmp < |r.from.bb.jmps|
    ensures p.1 < |p.0.bb.jmps|
  {
    if !r.skip && ns.Some? then (ns.value, |ns.value.bb.jmps| - 1) else (r.from, r.jmp)
  }

  function Inside(r: Run, ns: Option<Bbcc>): Option<Bbcc>
    requires r.Call?
  {
    if !r.skip then None else if ns.None? then Some(r.from) else ns
  }

  function Elapsed(r: Run, n: nat, e: nat): nat
    requires WellFormed(r, n) && e < n
  {
    match r
    case Done => 0
    case Elapse(delta, rest) => delta[e] + Elapsed(rest, n, e)
    case Write(rest) => Elapsed(rest, n, e)
    case Call(_, _, _, _, _, body, rest) => Elapsed(body, n, e) + Elapsed(rest, n, e)
  }

  /** What the calls along `a` made inside the run cost from entry to exit. */
  ghost function Due(r: Run, ns: Option<Bbcc>, a: Arc, n: nat, e: nat): nat
    requires WellFormed(r, n) && e < n
  {
    match r
    case Done => 0
    case Elapse(_, rest) => Due(rest, ns, a, n, e)
    case Write(rest) => Due(rest, ns, a, n, e)
    case Call(_, _, to, _, skip, body, rest) =>
      (if !skip && a == Arc(Source(r, ns).0, Source(r, ns).1, to) then Elapsed(body, n, e) else 0) +
      Due(body, Inside(r, ns), a, n, e) + Due(rest, ns, a, n, e)
  }

  /** The same frames up to the cost they are counted from. */
  ghost predicate SameShape(f: seq<Entry>, g: seq<Entry>) {
    |f| == |g| && forall i :: 0 <= i < |f| ==> g[i] == f[i].(enter := g[i].enter)
  }

  lemma {:induction false} ActiveSame(f: seq<Entry>, g: seq<Entry>, a: Arc)
    requires SameShape(f, g)
    ensures Active(f, a) == Active(g, a)
  {
    if f != [] {
      ActiveSame(f[..|f| - 1], g[..|g| - 1], a);
    }
  }

  /** The books after a balanced run: time passed, every arc paid for the calls made inside, and the calls
      that were active all along owe the whole time. */
  ghost predicate Accounted(b: Books, c: Books, r: Run, ns: Option<Bbcc>) {
    && Sound(b) && Sound(c) && |c.cost| == |b.cost| && WellFormed(r, |b.cost|)
    && (forall e :: 0 <= e < |b.cost| ==> c.cost[e] == b.cost[e] + Elapsed(r, |b.cost|, e))
    && forall a: Arc, e: nat :: e < |b.cost| ==>
      Inclusive(c, a, e) ==
        Inclusive(b, a, e) + Due(r, ns, a, |b.cost|, e) + Active(b.frames, a) * Elapsed(r, |b.cost|, e)
  }

  lemma AccountedDone(b: Books, ns: Option<Bbcc>)
    requires Sound(b)
    ensures Accounted(b, b, Done, ns)
  {
  }

  lemma AccountedElapse(b: Books, m: Books, c: Books, delta: Cost, rest: Run, ns: Option<Bbcc>)
    requires Charged(b, m, delta) && m.frames == b.frames && m.cost == Plus(b.cost, delta)
    requires Accounted(m, c, rest, ns)
    ensures Accounted(b, c, Elapse(delta, rest), ns)
  {
    var r, n := Elapse(delta, rest), |b.cost|;
    forall a: Arc, e: nat | e < n
      ensures Inclusive(c, a, e) == Inclusive(b, a, e) + Due(r, ns, a, n, e) + Active(b.frames, a) * Elapsed(r, n, e)
    {
      assert Inclusive(m, a, e) == Inclusive(b, a, e) + Active(b.frames, a) * delta[e];
      Distribute(Active(b.frames, a), delta[e], Elapsed(rest, n, e));
    }
  }

  lemma Distribute(k: nat, x: nat, y: nat)
    ensures k * (x + y) == k * x + k * y
    ensures (k + 1) * x == k * x + x
  {
  }

  lemma AccountedWrite(b: Books, m: Books, c: Books, rest: Run, ns: Option<Bbcc>)
    requires Conserved(b, m) && SameShape(b.frames, m.frames) && Accounted(m, c, rest, ns)
    ensures Accounted(b, c, Write(rest), ns)
  {
    var r, n := Write(rest), |b.cost|;
    forall a: Arc, e: nat | e < n
      ensures Inclusive(c, a, e) == Inclusive(b, a, e) + Due(r, ns, a, n, e) + Active(b.frames, a) * Elapsed(r, n, e)
    {
      assert Inclusive(m, a, e) == Inclusive(b, a, e);
      ActiveSame(b.frames, m.frames, a);
    }
  }

  /** The books after the push and before the pop of one call, and its frame */
  datatype CallBooks = CallBooks(entered: Books, leaving: Books, top: Entry)

  /** From b to m3 one call was entered, its body run, and the call left again. */
  ghost predicate CallCharged(b: Books, m3: Books, r: Run, ns: Option<Bbcc>, k: CallBooks) {
    && r.Call? && WellFormed(r, |b.cost|)
    && Conserved(b, k.entered) && k.entered.frames == b.frames + [k.top]
    && k.top.jcc == (if r.skip then None else Some(Arc(Source(r, ns).0, Source(r, ns).1, r.to)))
    && Accounted(k.entered, k.leaving, r.body, Inside(r, ns))
    && Conserved(k.leaving, m3) && SameShape(b.frames, m3.frames)
  }

  lemma CallAccounted(b: Books, m3: Books, c: Books, r: Run, ns: Option<Bbcc>, k: CallBooks)
    requires CallCharged(b, m3, r, ns, k) && Accounted(m3, c, r.rest, ns)
    ensures Accounted(b, c, r, ns)
  {
    var n := |b.cost|;
    var m1, m2 := k.entered, k.leaving;
    forall e | 0 <= e < n
      ensures c.cost[e] == b.cost[e] + Elapsed(r, n, e)
    {
      assert m2.cost[e] == m1.cost[e] + Elapsed(r.body, n, e);
    }
    forall a: Arc, e: nat | e < n
      ensures Inclusive(c, a, e) == Inclusive(b, a, e) + Due(r, ns, a, n, e) + Active(b.frames, a) * Elapsed(r, n, e)
    {
      CallAccountedAt(b, m3, c, r, ns, k, a, e);
    }
  }

  lemma ElapsedCall(r: Run, n: nat, e: nat)
    requires r.Call? && WellFormed(r, n) && e < n
    ensures Elapsed(r, n, e) == Elapsed(r.body, n, e) + Elapsed(r.rest, n, e)
  {
  }

  lemma CallAccountedAt(b: Books, m3: Books, c: Books, r: Run, ns: Option<Bbcc>, k: CallBooks, a: Arc, e: nat)
    requires CallCharged(b, m3, r, ns, k) && Accounted(m3, c, r.rest, ns) && e < |b.cost|
    ensures Inclusive(c, a, e) ==
      Inclusive(b, a, e) + Due(r, ns, a, |b.cost|, e) + Active(b.frames, a) * Elapsed(r, |b.cost|, e)
  {
    hide Sound, Inclusive, SameShape, Elapsed, Source, Inside;
    var n, m1, m2 := |b.cost|, k.entered, k.leaving;
    var body, rest := Elapsed(r.body, n, e), Elapsed(r.rest, n, e);
    ElapsedCall(r, n, e);
    assert Inclusive(m1, a, e) == Inclusive(b, a, e);
    assert Inclusive(m3, a, e) == Inclusive(m2, a, e);
    assert m1.frames[..|m1.frames| - 1] == b.frames && m1.frames[|m1.frames| - 1] == k.top;
    ActiveSame(b.frames, m3.frames, a);
    Distribute(Active(b.frames, a), body, rest);
  }

  /** Every function is active as often as before. */
  ghost predicate SameDepths(a: map<nat, int>, b: map<nat, int>) {
    forall fn: Fn :: Depth(a, fn) == Depth(b, fn)
  }

  lemma DepthsRefl(a: map<nat, int>)
    ensures SameDepths(a, a)
  {
  }

  lemma DepthsTrans(a: map<nat, int>, b: map<nat, int>, c: map<nat, int>)
    requires SameDepths(a, b) && SameDepths(b, c)
    ensures SameDepths(a, c)
  {
    forall fn: Fn
      ensures Depth(a, fn) == Depth(c, fn)
    {
      assert Depth(a, fn) == Depth(b, fn);
    }
  }

  lemma DepthsRestored(a: map<nat, int>, b: map<nat, int>, fn: Fn)
    requires SameDepths(Adjust(a, fn, 1), b)
    ensures SameDepths(a, Adjust(b, fn, -1))
  {
    forall f: Fn
      ensures Depth(a, f) == Depth(Adjust(b, fn, -1), f)
    {
      assert Depth(Adjust(a, fn, 1), f) == Depth(b, f) && Depth(Adjust(a, fn, 1), fn) == Depth(b, fn);
    }
  }

  /** Executing a balanced run on a thread restores everything but costs, and costs are accounted for. */
  method Execute(t: Thread, r: Run)
    requires t.Valid() && t.entry[t.sp].cxt.None? && t.cxt.Some? && WellFormed(r, t.st.events)
    modifies t
    ensures t.Valid() && t.entry[t.sp].cxt.None?
    ensures t.cxt == old(t.cxt) && t.fnStack == old(t.fnStack) && t.nonskipped == old(t.nonskipped)
    ensures SameDepths(old(t.active), t.active)
    ensures SameShape(old(t.entry[..t.sp]), t.entry[..t.sp])
    ensures Accounted(old(t.View()), t.View(), r, old(t.nonskipped))
    decreases r, 1
  {
    hide Sound, Conserved, Accounted, Charged, Due, Elapsed, CxtOf, Layered, SameDepths, Depth, Adjust, Counts;
    ghost var b := t.View();
    DepthsRefl(t.active);
    match r {
      case Done =>
        AccountedDone(b, t.nonskipped);
      case Elapse(delta, rest) =>
        t.Tick(delta);
        ghost var m := t.View();
        Execute(t, rest);
        AccountedElapse(b, m, t.View(), delta, rest, t.nonskipped);
      case Write(rest) =>
        t.Dump();
        ghost var m := t.View();
        Execute(t, rest);
        AccountedWrite(b, m, t.View(), rest, t.nonskipped);
      case Call(_, _, _, _, _, body, rest) =>
        ghost var k := ExecuteCall(t, r);
        ghost var m := t.View();
        ghost var outer := t.active;
        Execute(t, rest);
        DepthsTrans(old(t.active), outer, t.active);
        CallAccounted(b, m, t.View(), r, t.nonskipped, k);
    }
  }

  /** One call from entry to exit; `k` reports what the books were in between. */
  method ExecuteCall(t: Thread, r: Run) returns (ghost k: CallBooks)
    requires t.Valid() && t.entry[t.sp].cxt.None? && t.cxt.Some? && r.Call? && WellFormed(r, t.st.events)
    modifies t
    ensures t.Valid() && t.entry[t.sp].cxt.None?
    ensures t.cxt == old(t.cxt) && t.fnStack == old(t.fnStack) && t.nonskipped == old(t.nonskipped)
    ensures SameDepths(old(t.active), t.active)
    ensures SameShape(old(t.entry[..t.sp]), t.entry[..t.sp])
    ensures CallCharged(old(t.View()), t.View(), r, old(t.nonskipped), k)
    decreases r, 0
  {
    hide Sound, Conserved, Accounted, Charged, Due, Elapsed, CxtOf, Layered, SameDepths, Depth, Adjust, Counts, FnOf;
    DepthsRefl(t.active);
    Enter(t, r);
    ghost var m1, top := t.View(), t.entry[t.sp - 1];
    Execute(t, r.body);
    ghost var m2, inner := t.View(), t.active;
    t.PopCall();
    k := CallBooks(m1, m2, top);
    if !r.skip && Counts(t.st, top.jcc.value) {
      DepthsRestored(old(t.active), inner, FnOf(r.to));
    }
  }

  /** push_cxt, unless skipping, and push_call_stack */
  method Enter(t: Thread, r: Run)
    requires t.Valid() && t.entry[t.sp].cxt.None? && t.cxt.Some? && r.Call? && r.jmp < |r.from.bb.jmps|
    modifies t
    ensures t.Valid() && t.entry[t.sp].cxt.None? && t.cxt.Some? && t.sp == old(t.sp) + 1
    ensures t.entry[..t.sp] == old(t.entry[..t.sp]) + [t.entry[t.sp - 1]]
    ensures var en := t.entry[t.sp - 1];
      && en.nonskipped == old(t.nonskipped)
      && (r.skip ==> en.jcc.None? && t.cxt == old(t.cxt) && t.fnStack == old(t.fnStack) && t.active == old(t.active))
      && (!r.skip ==>
        && en.jcc == Some(Arc(Source(r, old(t.nonskipped)).0, Source(r, old(t.nonskipped)).1, r.to))
        && en.cxt == old(t.cxt) && en.fnSp + 1 == |old(t.fnStack)| <= |t.fnStack|
        && t.fnStack[..|old(t.fnStack)|] == old(t.fnStack)
        && t.active == if Counts(t.st, en.jcc.value) then Adjust(old(t.active), FnOf(r.to), 1) else old(t.active))
    ensures t.nonskipped == Inside(r, old(t.nonskipped))
    ensures Conserved(old(t.View()), t.View())
  {
    hide Sound, Conserved, CxtOf, Adjust, Counts, FnOf;
    var s := Source(r, t.nonskipped);
    if !r.skip {
      t.PushCxt(r.to.bb.fn);
    }
    t.PushCall(s.0, s.1, r.to, r.spAddr, r.skip);
  }

  lemma {:induction false} PendingInactive(f: seq<Entry>, a: Arc, now: Cost, e: nat)
    requires e < |now| && Entered(f, now) && Active(f, a) == 0
    ensures Pending(f, a, now, e) == 0
  {
    if f != [] {
      PendingInactive(f[..|f| - 1], a, now, e);
    }
  }

  /** On an arc with no call active before or after, what dumps and pops together added is exactly, for each
      call along it, the cost at its pop minus the cost at its push. */
  lemma ArcGain(b: Books, c: Books, r: Run, ns: Option<Bbcc>, a: Arc, e: nat)
    requires Accounted(b, c, r, ns) && SameShape(b.frames, c.frames) && e < |b.cost| && Active(b.frames, a) == 0
    ensures ArcCost(c.arcs, a, |c.cost|)[e] == ArcCost(b.arcs, a, |b.cost|)[e] + Due(r, ns, a, |b.cost|, e)
  {
    ActiveSame(b.frames, c.frames, a);
    PendingInactive(b.frames, a, b.cost, e);
    PendingInactive(c.frames, a, c.cost, e);
    assert Inclusive(c, a, e) ==
      Inclusive(b, a, e) + Due(r, ns, a, |b.cost|, e) + Active(b.frames, a) * Elapsed(r, |b.cost|, e);
  }
}
