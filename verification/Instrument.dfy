/** Cachegrind's instrumentation pass: events queue up while a block is scanned and are turned, merged
    and delayed, into calls to the run-time helpers.  Running the output block has the same effect as
    simulating the block's memory and branch events one by one as they occur. */
module Instrument {
  import opened MachineWords
  import opened Wrappers
  import opened CacheSim
  import opened Events

  datatype Effect = NoFx | ReadFx | WriteFx | ModifyFx
  /** The statements of an input block, as far as the pass looks at them. */
  datatype Stmt =
    | Plain
    | IMark(addr: nat, len: nat, line: nat)
    | Load(ea: nat, szB: nat)
    | Store(ea: nat, szB: nat)
    | LoadG(ea: nat, szB: nat, guard: nat)
    | StoreG(ea: nat, szB: nat, guard: nat)
    | Dirty(fx: Effect, ea: nat, szB: nat)
    | CAS(ea: nat, szB: nat)
    | LoadLinked(ea: nat, szB: nat)
    | StoreCond(ea: nat, szB: nat)
    | Exit(guard: nat, guestBranch: bool, dst: nat)

  // ---------------------------------------------------------------------------
  // The reference: what happens, in order

  datatype Action = Do(e: Event) | DoIf(guard: nat, e: Event) | LeaveIf(guard: nat)

  function Act(p: Params, env: Env, r: Run, a: Action): Run {
    if !r.Going? then r
    else match a
      case Do(e) => Simulate(p, env, r.sim, e)
      case DoIf(g, e) => if env(g) != 0 then Simulate(p, env, r.sim, e) else r
      case LeaveIf(g) => if env(g) != 0 then Left(r.sim) else r
  }

  function ActAll(p: Params, env: Env, r: Run, acts: seq<Action>): Run {
    if acts == [] then r else Act(p, env, ActAll(p, env, r, acts[..|acts| - 1]), acts[|acts| - 1])
  }

  /** Where the scan stands: the instruction being scanned, the bins handed out so far, and the read
      -- if that was the last event and nothing forced it out -- that a write may still join. */
  datatype Scan = Scan(curr: Inode, bins: nat, open: Option<(nat, nat)>, acts: seq<Action>)

  function NewInstr(p: Params, sc: Scan, addr: nat, len: nat, line: nat): Scan {
    var n := Inode(sc.bins, addr, if len == 0 then p.minInstr else len, line);
    Scan(n, sc.bins + 1, None, sc.acts + [Do(if IsNoX(p, n) then IrNoX(n) else IrGen(n))])
  }

  function Read(p: Params, sc: Scan, ea: nat, szB: nat): Scan {
    if !p.cacheSim then sc else sc.(open := Some((ea, szB)), acts := sc.acts + [Do(Dr(sc.curr, ea, szB))])
  }

  /** A write right after a read of the same place by the same instruction is one modify: it is
      simulated as the read alone. */
  function Write(p: Params, sc: Scan, ea: nat, szB: nat): Scan {
    if !p.cacheSim then sc
    else if sc.open == Some((ea, szB)) then sc.(open := None)
    else sc.(open := None, acts := sc.acts + [Do(Dw(sc.curr, ea, szB))])
  }

  function Guarded(p: Params, sc: Scan, ea: nat, szB: nat, guard: nat, write: bool): Scan {
    if !p.cacheSim then sc
    else
      var e := if write then Dw(sc.curr, ea, szB) else Dr(sc.curr, ea, szB);
      sc.(open := None, acts := sc.acts + [DoIf(guard, e)])
  }

  function Min(x: nat, y: nat): nat {
    if x < y then x else y
  }

  /** min_line_size: the shortest line of the three caches */
  function MinLine(p: Params): nat {
    Min(Min(p.i1Line, p.d1Line), p.llLine)
  }

  function Capped(p: Params, szB: nat): nat {
    if szB > MinLine(p) then MinLine(p) else szB
  }

  /** What the cap is for: a capped access inside the address space panics at no level, unless its size as a
      byte is zero, which takes lines of 256 bytes or more, and it starts on a line boundary. */
  lemma CappedPanics(p: Params, s: Sim, n: Inode, a: nat, szB: nat, write: bool)
    requires p.d1Line < 0x8000_0000 && p.llLine < 0x8000_0000 && a + Capped(p, szB) <= W64
    ensures DataRef(p, s, n, a, Capped(p, szB), write) == Aborted <==>
      && UChar(Capped(p, szB)) == 0
      && (a % p.d1Line == 0 || (Ref(p.d1Line, s.d1, a, 0).1 == Miss && a % p.llLine == 0))
  {
    hide Ref;
    var size := UChar(Capped(p, szB));
    PanicsExactly(p.d1Line, s.d1, a, size);
    PanicsExactly(p.llLine, s.ll, a, size);
  }

  /** So with lines below 256 bytes no access of at least one byte panics. */
  lemma CappedNeverPanics(p: Params, s: Sim, n: Inode, a: nat, szB: nat, write: bool)
    requires p.d1Line < 0x8000_0000 && p.llLine < 0x8000_0000 && a + Capped(p, szB) <= W64
    requires szB > 0 && MinLine(p) < 256
    ensures DataRef(p, s, n, a, Capped(p, szB), write) != Aborted
  {
    CappedPanics(p, s, n, a, szB, write);
  }

  /** With lines of 256 bytes a capped access of 256 bytes at address 256 does. */
  lemma WideLinesPanic(p: Params, s: Sim, n: Inode, write: bool)
    requires p.i1Line == p.d1Line == p.llLine == 256
    ensures DataRef(p, s, n, 256, Capped(p, 300), write) == Aborted
  {
    CappedPanics(p, s, n, 256, 300, write);
  }

  function ScanStmt(p: Params, sc: Scan, st: Stmt): Scan {
    match st
    case Plain => sc
    case IMark(addr, len, line) => NewInstr(p, sc, addr, len, line)
    case Load(ea, szB) => Read(p, sc, ea, szB)
    case Store(ea, szB) => Write(p, sc, ea, szB)
    case LoadG(ea, szB, guard) => Guarded(p, sc, ea, szB, guard, false)
    case StoreG(ea, szB, guard) => Guarded(p, sc, ea, szB, guard, true)
    case Dirty(fx, ea, szB) =>
      var sz := Capped(p, szB);
      var sc1 := if fx == ReadFx || fx == ModifyFx then Read(p, sc, ea, sz) else sc;
      if fx == WriteFx || fx == ModifyFx then Write(p, sc1, ea, sz) else sc1
    case CAS(ea, szB) => Write(p, Read(p, sc, ea, Capped(p, szB)), ea, Capped(p, szB))
    case LoadLinked(ea, szB) => Read(p, sc, ea, szB).(open := None)
    case StoreCond(ea, szB) => Write(p, sc, ea, szB)
    case Exit(guard, guestBranch, dst) =>
      var branch := if guestBranch && p.branchSim
        then [Do(Bc(sc.curr, guard, (sc.curr.addr + sc.curr.len) % W64 == dst))] else [];
      sc.(open := None, acts := sc.acts + branch + [LeaveIf(guard)])
  }

  function ScanAll(p: Params, sc: Scan, sts: seq<Stmt>): Scan {
    if sts == [] then sc else ScanStmt(p, ScanAll(p, sc, sts[..|sts| - 1]), sts[|sts| - 1])
  }

  // ---------------------------------------------------------------------------
  // Output blocks

  datatype Out = Call(h: Helper) | CallIf(guard: nat, h: Helper) | Orig(st: Stmt)

  function Step(p: Params, env: Env, r: Run, o: Out): Run {
    if !r.Going? then r
    else match o
      case Call(h) => Help(p, env, r.sim, h)
      case CallIf(g, h) => if env(g) != 0 then Help(p, env, r.sim, h) else r
      case Orig(st) => if st.Exit? && env(st.guard) != 0 then Left(r.sim) else r
  }

  function Steps(p: Params, env: Env, r: Run, out: seq<Out>): Run {
    if out == [] then r else Step(p, env, Steps(p, env, r, out[..|out| - 1]), out[|out| - 1])
  }

  function SimulateAll(p: Params, env: Env, r: Run, evs: seq<Event>): Run {
    if evs == [] then r
    else var q := SimulateAll(p, env, r, evs[..|evs| - 1]);
         if q.Going? then Simulate(p, env, q.sim, evs[|evs| - 1]) else q
  }

  /** Running the output so far and then the queued events amounts to the actions so far. */
  ghost predicate Equivalent(p: Params, out: seq<Out>, evs: seq<Event>, acts: seq<Action>) {
    forall env: Env, s: Sim {:trigger Steps(p, env, Going(s), out)} {:trigger ActAll(p, env, Going(s), acts)} ::
      SimulateAll(p, env, Steps(p, env, Going(s), out), evs) == ActAll(p, env, Going(s), acts)
  }

  lemma {:induction false} SimulateConcat(p: Params, env: Env, r: Run, a: seq<Event>, b: seq<Event>)
    ensures SimulateAll(p, env, r, a + b) == SimulateAll(p, env, SimulateAll(p, env, r, a), b)
  {
    hide Simulate;
    if b == [] {
      assert a + b == a;
    } else {
      var c := b[..|b| - 1];
      SimulateConcat(p, env, r, a, c);
      assert (a + b)[..|a + b| - 1] == a + c;
    }
  }

  lemma {:induction false} SimulateStopped(p: Params, env: Env, r: Run, evs: seq<Event>)
    requires !r.Going?
    ensures SimulateAll(p, env, r, evs) == r
  {
    if evs != [] {
      SimulateStopped(p, env, r, evs[..|evs| - 1]);
    }
  }

  // ---------------------------------------------------------------------------
  // What each step of the pass does to the equivalence

  lemma EquivAppend(p: Params, out: seq<Out>, evs: seq<Event>, acts: seq<Action>, e: Event)
    requires Equivalent(p, out, evs, acts)
    ensures Equivalent(p, out, evs + [e], acts + [Do(e)])
  {
    hide Simulate;
    assert (evs + [e])[..|evs|] == evs && (acts + [Do(e)])[..|acts|] == acts;
  }

  lemma EquivModify(p: Params, out: seq<Out>, evs: seq<Event>, acts: seq<Action>, n: Inode, ea: nat, szB: nat)
    requires Equivalent(p, out, evs + [Dr(n, ea, szB)], acts)
    ensures Equivalent(p, out, evs + [Dm(n, ea, szB)], acts)
  {
    assert (evs + [Dr(n, ea, szB)])[..|evs|] == evs && (evs + [Dm(n, ea, szB)])[..|evs|] == evs;
    assert forall env: Env, s: Sim :: Simulate(p, env, s, Dr(n, ea, szB)) == Simulate(p, env, s, Dm(n, ea, szB));
    hide Simulate;
  }

  lemma EquivOrig(p: Params, out: seq<Out>, evs: seq<Event>, acts: seq<Action>, st: Stmt)
    requires Equivalent(p, out, evs, acts)
    ensures !st.Exit? ==> Equivalent(p, out + [Orig(st)], evs, acts)
    ensures st.Exit? && evs == [] ==> Equivalent(p, out + [Orig(st)], [], acts + [LeaveIf(st.guard)])
  {
    hide Help, Simulate;
    assert (out + [Orig(st)])[..|out|] == out;
    if st.Exit? && evs == [] {
      var acts' := acts + [LeaveIf(st.guard)];
      assert acts'[..|acts|] == acts;
      forall env: Env, s: Sim
        ensures SimulateAll(p, env, Steps(p, env, Going(s), out + [Orig(st)]), []) == ActAll(p, env, Going(s), acts')
      {
        assert SimulateAll(p, env, Steps(p, env, Going(s), out), []) == ActAll(p, env, Going(s), acts);
      }
    }
  }

  lemma EquivGuarded(p: Params, out: seq<Out>, acts: seq<Action>, guard: nat, n: Inode, ea: nat, szB: nat, write: bool)
    requires Equivalent(p, out, [], acts)
    ensures var h := if write then Log0Ir1Dw(n, ea, szB) else Log0Ir1Dr(n, ea, szB);
      var e := if write then Dw(n, ea, szB) else Dr(n, ea, szB);
      Equivalent(p, out + [CallIf(guard, h)], [], acts + [DoIf(guard, e)])
  {
    hide DataRef;
    var h := if write then Log0Ir1Dw(n, ea, szB) else Log0Ir1Dr(n, ea, szB);
    var e := if write then Dw(n, ea, szB) else Dr(n, ea, szB);
    var out', acts' := out + [CallIf(guard, h)], acts + [DoIf(guard, e)];
    assert out'[..|out|] == out && acts'[..|acts|] == acts;
    forall env: Env, s: Sim
      ensures SimulateAll(p, env, Steps(p, env, Going(s), out'), []) == ActAll(p, env, Going(s), acts')
    {
      assert SimulateAll(p, env, Steps(p, env, Going(s), out), []) == ActAll(p, env, Going(s), acts);
    }
  }

  // ---------------------------------------------------------------------------
  // Flushing

  predicate IsFetch(e: Event) {
    e.IrNoX? || e.IrGen?
  }

  predicate IsData(e: Event) {
    e.Dr? || e.Dw? || e.Dm?
  }

  /** What every queue satisfies: single-line fetches really are, data events are queued only when
      caches are simulated, and anything but a fetch belongs to the same instruction as the event before it. */
  ghost predicate QueueOk(p: Params, evs: seq<Event>) {
    && (forall i :: 0 <= i < |evs| ==> evs[i].IrNoX? ==> IsNoX(p, evs[i].inode))
    && (forall i :: 0 <= i < |evs| ==> IsData(evs[i]) ==> p.cacheSim)
    && (forall i :: 1 <= i < |evs| ==> !IsFetch(evs[i]) ==> evs[i].inode == evs[i - 1].inode)
  }

  /** The helper call emitted for the first event of the queue, and how many events it covers. */
  function FirstCall(p: Params, evs: seq<Event>): (r: (Helper, nat))
    requires evs != [] && QueueOk(p, evs)
    ensures 1 <= r.1 <= |evs|
  {
    var n := evs[0].inode;
    match evs[0]
    case IrNoX(_) =>
      if |evs| > 1 && (evs[1].Dr? || evs[1].Dm?) then
        assert evs[1].inode == n;
        (Log1IrNoX1Dr(n, evs[1].ea, evs[1].szB), 2)
      else if |evs| > 1 && evs[1].Dw? then
        assert evs[1].inode == n;
        (Log1IrNoX1Dw(n, evs[1].ea, evs[1].szB), 2)
      else if |evs| > 2 && evs[1].IrNoX? && evs[2].IrNoX? then
        (if p.cacheSim then Log3IrNoX(n, evs[1].inode, evs[2].inode) else Log3Ir(n, evs[1].inode, evs[2].inode), 3)
      else if |evs| > 1 && evs[1].IrNoX? then
        (if p.cacheSim then Log2IrNoX(n, evs[1].inode) else Log2Ir(n, evs[1].inode), 2)
      else
        (if p.cacheSim then Log1IrNoX(n) else Log1Ir(n), 1)
    case IrGen(_) => (if p.cacheSim then Log1IrGen(n) else Log1Ir(n), 1)
    case Dr(_, ea, szB) => (Log0Ir1Dr(n, ea, szB), 1)
    case Dm(_, ea, szB) => (Log0Ir1Dr(n, ea, szB), 1)
    case Dw(_, ea, szB) => (Log0Ir1Dw(n, ea, szB), 1)
    case Bc(_, guard, inverted) => (LogCond(n, guard, inverted), 1)
    case Bi(_, dst) => (LogInd(n, dst), 1)
  }

  lemma SimulateOne(p: Params, env: Env, r: Run, e: Event)
    ensures SimulateAll(p, env, r, [e]) == if r.Going? then Simulate(p, env, r.sim, e) else r
  {
    assert [e][..0] == [];
  }

  /** One helper call does what the events it covers do one after the other. */
  lemma FirstCallMeans(p: Params, env: Env, s: Sim, evs: seq<Event>)
    requires evs != [] && QueueOk(p, evs)
    ensures var (h, k) := FirstCall(p, evs); Help(p, env, s, h) == SimulateAll(p, env, Going(s), evs[..k])
  {
    hide FetchGen, FetchNoX, FetchOnly, DataRef, CondBranch, IndBranch, IsNoX, SimulateAll;
    var (h, k) := FirstCall(p, evs);
    var r1 := Simulate(p, env, s, evs[0]);
    SimulateOne(p, env, Going(s), evs[0]);
    if evs[0].IrNoX? {
      NoXIsGen(p, s, evs[0].inode);
    }
    if k == 1 {
      assert evs[..1] == [evs[0]];
    } else {
      assert evs[..2] == [evs[0]] + [evs[1]];
      SimulateConcat(p, env, Going(s), [evs[0]], [evs[1]]);
      SimulateOne(p, env, r1, evs[1]);
      if r1.Going? && evs[1].IrNoX? {
        NoXIsGen(p, r1.sim, evs[1].inode);
      }
      if k == 3 {
        var r2 := SimulateAll(p, env, Going(s), evs[..2]);
        assert evs[..3] == evs[..2] + [evs[2]];
        SimulateConcat(p, env, Going(s), evs[..2], [evs[2]]);
        SimulateOne(p, env, r2, evs[2]);
        if r2.Going? {
          NoXIsGen(p, r2.sim, evs[2].inode);
        }
      }
    }
  }

  lemma EquivCall(p: Params, out: seq<Out>, evs: seq<Event>, acts: seq<Action>)
    requires evs != [] && QueueOk(p, evs) && Equivalent(p, out, evs, acts)
    ensures var (h, k) := FirstCall(p, evs); Equivalent(p, out + [Call(h)], evs[k..], acts)
  {
    hide Help, Simulate, SimulateAll, FirstCall, QueueOk;
    var (h, k) := FirstCall(p, evs);
    assert (out + [Call(h)])[..|out|] == out;
    forall env: Env, s: Sim
      ensures SimulateAll(p, env, Steps(p, env, Going(s), out + [Call(h)]), evs[k..]) == ActAll(p, env, Going(s), acts)
    {
      var r := Steps(p, env, Going(s), out);
      if r.Going? {
        FirstCallMeans(p, env, r.sim, evs);
      } else {
        SimulateStopped(p, env, r, evs[..k]);
      }
      SimulateConcat(p, env, r, evs[..k], evs[k..]);
      assert evs == evs[..k] + evs[k..];
    }
  }

  // ---------------------------------------------------------------------------
  // The pass itself

  const N_EVENTS := 16

  class CgState {
    const p: Params
    const capacity: nat
    const events: array<Event>
    var eventsUsed: nat
    var bins: nat
    var out: seq<Out>
    ghost var scan: Scan

    ghost predicate Valid()
      reads this, events
    {
      && 0 < capacity == events.Length && eventsUsed <= capacity
      && QueueOk(p, events[..eventsUsed])
      && Equivalent(p, out, events[..eventsUsed], scan.acts)
      && (eventsUsed > 0 ==> events[eventsUsed - 1].inode == scan.curr)
      && scan.open == (if eventsUsed > 0 && events[eventsUsed - 1].Dr?
                       then Some((events[eventsUsed - 1].ea, events[eventsUsed - 1].szB)) else None)
    }

    constructor (p: Params, capacity: nat)
      requires capacity > 0
      ensures Valid() && fresh(events) && this.p == p && this.capacity == capacity
      ensures out == [] && eventsUsed == bins == 0 && scan == Scan(Inode(0, 0, 0, 0), 0, None, [])
    {
      this.p, this.capacity := p, capacity;
      events := new Event[capacity](_ => IrGen(Inode(0, 0, 0, 0)));
      eventsUsed, bins, out := 0, 0, [];
      scan := Scan(Inode(0, 0, 0, 0), 0, None, []);
    }

    /** flushEvents: emit helper calls for everything queued, merging neighbours. */
    method FlushEvents()
      requires Valid()
      modifies this
      ensures Valid() && eventsUsed == 0 && scan == old(scan).(open := None) && bins == old(bins)
    {
      hide Equivalent, FirstCall;
      var i := 0;
      ghost var evs := events[..eventsUsed];
      while i < eventsUsed
        invariant 0 <= i <= eventsUsed == old(eventsUsed) && events[..eventsUsed] == evs
        invariant Equivalent(p, out, events[i..eventsUsed], scan.acts)
        invariant scan == old(scan) && bins == old(bins)
      {
        ghost var rest := events[i..eventsUsed];
        assert rest == evs[i..];
        QueueSuffix(p, evs, i);
        var (h, k) := FirstCall(p, events[i..eventsUsed]);
        EquivCall(p, out, rest, scan.acts);
        out := out + [Call(h)];
        i := i + k;
        assert rest[k..] == events[i..eventsUsed];
      }
      assert events[i..eventsUsed] == [] == events[..0];
      eventsUsed := 0;
      scan := scan.(open := None);
    }

    /** The tail of every addEvent_*: make room if the queue is full, then append. */
    method Enqueue(e: Event)
      requires Valid() && (e.IrNoX? ==> IsNoX(p, e.inode)) && (IsData(e) ==> p.cacheSim)
      requires !IsFetch(e) ==> e.inode == scan.curr
      modifies this, events
      ensures Valid() && bins == old(bins)
      ensures var open := if e.Dr? then Some((e.ea, e.szB)) else None;
        scan == Scan(e.inode, old(scan.bins), open, old(scan.acts) + [Do(e)])
    {
      if eventsUsed == capacity {
        FlushEvents();
      }
      hide Equivalent;
      ghost var evs := events[..eventsUsed];
      EquivAppend(p, out, evs, scan.acts, e);
      events[eventsUsed] := e;
      eventsUsed := eventsUsed + 1;
      scan := Scan(e.inode, scan.bins, if e.Dr? then Some((e.ea, e.szB)) else None, scan.acts + [Do(e)]);
      assert events[..eventsUsed] == evs + [e];
    }

    /** setup_InstrInfo and addEvent_Ir */
    method AddIr(addr: nat, len: nat, line: nat)
      requires Valid() && bins == scan.bins
      modifies this, events
      ensures Valid() && bins == scan.bins && scan == NewInstr(p, old(scan), addr, len, line)
    {
      var n := Inode(bins, addr, if len == 0 then p.minInstr else len, line);
      bins := bins + 1;
      Enqueue(if IsNoX(p, n) then IrNoX(n) else IrGen(n));
      scan := scan.(bins := scan.bins + 1);
    }

    /** addEvent_Dr */
    method AddDr(inode: Inode, szB: nat, ea: nat)
      requires Valid() && inode == scan.curr
      modifies this, events
      ensures Valid() && bins == old(bins) && scan == Read(p, old(scan), ea, szB)
    {
      if !p.cacheSim {
        return;
      }
      Enqueue(Dr(inode, ea, szB));
    }

    /** addEvent_Dw: joins a read of the same place if that is the last event queued. */
    method AddDw(inode: Inode, szB: nat, ea: nat)
      requires Valid() && inode == scan.curr
      modifies this, events
      ensures Valid() && bins == old(bins) && scan == Write(p, old(scan), ea, szB)
    {
      if !p.cacheSim {
        return;
      }
      if eventsUsed > 0 && events[eventsUsed - 1].Dr? && events[eventsUsed - 1].szB == szB
         && events[eventsUsed - 1].inode == inode && events[eventsUsed - 1].ea == ea {
        hide Equivalent;
        ghost var before := events[..eventsUsed - 1];
        assert events[..eventsUsed] == before + [Dr(inode, ea, szB)];
        EquivModify(p, out, before, scan.acts, inode, ea, szB);
        ghost var evs := events[..eventsUsed];
        events[eventsUsed - 1] := Dm(inode, ea, szB);
        assert events[..eventsUsed] == before + [Dm(inode, ea, szB)];
        scan := scan.(open := None);
        return;
      }
      Enqueue(Dw(inode, ea, szB));
    }

    /** addEvent_D_guarded */
    method AddDGuarded(inode: Inode, szB: nat, ea: nat, guard: nat, isWrite: bool)
      requires Valid() && inode == scan.curr
      modifies this, events
      ensures Valid() && bins == old(bins) && scan == Guarded(p, old(scan), ea, szB, guard, isWrite)
    {
      if !p.cacheSim {
        return;
      }
      FlushEvents();
      hide Equivalent;
      assert events[..eventsUsed] == [];
      EquivGuarded(p, out, scan.acts, guard, inode, ea, szB, isWrite);
      out := out + [CallIf(guard, if isWrite then Log0Ir1Dw(inode, ea, szB) else Log0Ir1Dr(inode, ea, szB))];
      scan := Guarded(p, scan, ea, szB, guard, isWrite);
    }

    /** addEvent_Bc */
    method AddBc(inode: Inode, guard: nat, inverted: bool)
      requires Valid() && inode == scan.curr
      modifies this, events
      ensures Valid() && bins == old(bins)
      ensures !p.branchSim ==> scan == old(scan)
      ensures p.branchSim ==>
        scan == old(scan).(open := None, acts := old(scan.acts) + [Do(Bc(inode, guard, inverted))])
    {
      if !p.branchSim {
        return;
      }
      Enqueue(Bc(inode, guard, inverted));
    }

    /** addEvent_Bi */
    method AddBi(inode: Inode, whereTo: nat)
      requires Valid() && inode == scan.curr
      modifies this, events
      ensures Valid() && bins == old(bins)
      ensures !p.branchSim ==> scan == old(scan)
      ensures p.branchSim ==> scan == old(scan).(open := None, acts := old(scan.acts) + [Do(Bi(inode, whereTo))])
    {
      if !p.branchSim {
        return;
      }
      Enqueue(Bi(inode, whereTo));
    }

    /** Copy an original statement to the output; nothing may be queued across an exit. */
    method CopyStmt(st: Stmt)
      requires Valid() && (st.Exit? ==> eventsUsed == 0)
      modifies this
      ensures Valid() && bins == old(bins) && eventsUsed == old(eventsUsed)
      ensures scan == if st.Exit? then old(scan).(acts := old(scan.acts) + [LeaveIf(st.guard)]) else old(scan)
    {
      hide Equivalent;
      assert eventsUsed == 0 ==> events[..eventsUsed] == [];
      EquivOrig(p, out, events[..eventsUsed], scan.acts, st);
      out := out + [Orig(st)];
      if st.Exit? {
        scan := scan.(acts := scan.acts + [LeaveIf(st.guard)]);
      }
    }

    /** A read, a write or both of a size cut down to the smallest line */
    method AddCapped(curr: Inode, szB: nat, ea: nat, isRead: bool, isWrite: bool)
      requires Valid() && curr == scan.curr
      modifies this, events
      ensures Valid() && bins == old(bins)
      ensures
        var sz := Capped(p, szB);
        var sc1 := if isRead then Read(p, old(scan), ea, sz) else old(scan);
        scan == if isWrite then Write(p, sc1, ea, sz) else sc1
    {
      hide Equivalent, QueueOk;
      var dataSize := if szB > MinLine(p) then MinLine(p) else szB;
      if isRead {
        AddDr(curr, dataSize, ea);
      }
      if isWrite {
        AddDw(curr, dataSize, ea);
      }
    }

    /** One round of the scan in cg_instrument. */
    method ScanOne(st: Stmt, curr: Inode) returns (curr': Inode)
      requires Valid() && bins == scan.bins && curr == scan.curr
      modifies this, events
      ensures Valid() && bins == scan.bins && curr' == scan.curr
      ensures scan == ScanStmt(p, old(scan), st)
    {
      hide Equivalent, QueueOk;
      curr' := curr;
      match st {
        case Plain =>
        case IMark(addr, len, line) =>
          curr' := Inode(bins, addr, if len == 0 then p.minInstr else len, line);
          AddIr(addr, len, line);
        case Load(ea, szB) =>
          AddDr(curr, szB, ea);
        case Store(ea, szB) =>
          AddDw(curr, szB, ea);
        case StoreG(ea, szB, guard) =>
          AddDGuarded(curr, szB, ea, guard, true);
        case LoadG(ea, szB, guard) =>
          AddDGuarded(curr, szB, ea, guard, false);
        case Dirty(fx, ea, szB) =>
          AddCapped(curr, szB, ea, fx == ReadFx || fx == ModifyFx, fx == WriteFx || fx == ModifyFx);
        case CAS(ea, szB) =>
          AddCapped(curr, szB, ea, true, true);
        case LoadLinked(ea, szB) =>
          AddDr(curr, szB, ea);
          FlushEvents();
        case StoreCond(ea, szB) =>
          AddDw(curr, szB, ea);
        case Exit(guard, guestBranch, dst) =>
          if guestBranch {
            var nia := (curr.addr + curr.len) % W64;
            AddBc(curr, guard, nia == dst);
          }
          FlushEvents();
      }
      CopyStmt(st);
    }

    /** The statements before the first instruction mark are copied verbatim. */
    method CopyPreamble(sts: seq<Stmt>) returns (i: nat)
      requires Valid() && eventsUsed == bins == 0 && scan == Scan(Inode(0, 0, 0, 0), 0, None, [])
      modifies this
      ensures Valid() && bins == 0 && i == FirstIMark(sts)
      ensures scan == Scan(Inode(0, 0, 0, 0), 0, None, PreambleActs(sts[..i]))
    {
      hide Equivalent, QueueOk;
      i := 0;
      while i < |sts| && !sts[i].IMark?
        invariant 0 <= i <= FirstIMark(sts) && Valid() && eventsUsed == bins == 0
        invariant scan == Scan(Inode(0, 0, 0, 0), 0, None, PreambleActs(sts[..i]))
      {
        CopyStmt(sts[i]);
        assert sts[..i + 1][..i] == sts[..i];
        i := i + 1;
      }
    }

    method ScanRest(sts: seq<Stmt>) returns (curr: Inode)
      requires Valid() && bins == scan.bins && scan.curr == Inode(0, 0, 0, 0)
      modifies this, events
      ensures Valid() && curr == scan.curr && scan == ScanAll(p, old(scan), sts)
    {
      hide Equivalent, QueueOk, ScanStmt;
      curr := Inode(0, 0, 0, 0);
      for i := 0 to |sts|
        invariant Valid() && bins == scan.bins && curr == scan.curr
        invariant scan == ScanAll(p, old(scan), sts[..i])
      {
        curr := ScanOne(sts[i], curr);
        assert sts[..i + 1][..i] == sts[..i];
      }
      assert sts[..|sts|] == sts;
    }
  }

  function PreambleActs(sts: seq<Stmt>): seq<Action> {
    if sts == [] then []
    else PreambleActs(sts[..|sts| - 1]) + if sts[|sts| - 1].Exit? then [LeaveIf(sts[|sts| - 1].guard)] else []
  }

  function FirstIMark(sts: seq<Stmt>): (i: nat)
    ensures i <= |sts| && (i < |sts| ==> sts[i].IMark?)
    ensures forall j :: 0 <= j < i ==> !sts[j].IMark?
  {
    if sts == [] || sts[0].IMark? then 0 else 1 + FirstIMark(sts[1..])
  }

  /** Everything a block does to the simulation, in program order.  `target` is the temporary holding
      the destination when the block ends in an indirect jump or call. */
  function Reference(p: Params, sts: seq<Stmt>, target: Option<nat>): seq<Action> {
    var k := FirstIMark(sts);
    var sc := ScanAll(p, Scan(Inode(0, 0, 0, 0), 0, None, PreambleActs(sts[..k])), sts[k..]);
    sc.acts + if target.Some? && p.branchSim then [Do(Bi(sc.curr, target.value))] else []
  }

  /** cg_instrument: whatever the block, the values of its temporaries and the state of the simulation,
      the instrumented block leaves the simulation exactly as the reference does -- through the same
      exit, with the same caches, predictors and counters. */
  method CgInstrument(p: Params, capacity: nat, sts: seq<Stmt>, target: Option<nat>) returns (out: seq<Out>)
    requires capacity > 0 && FirstIMark(sts) < |sts|
    ensures forall env: Env, s: Sim ::
      Steps(p, env, Going(s), out) == ActAll(p, env, Going(s), Reference(p, sts, target))
  {
    hide Equivalent, QueueOk, Steps, ActAll;
    var cgs := new CgState(p, capacity);
    var k := cgs.CopyPreamble(sts);
    var curr := cgs.ScanRest(sts[k..]);
    if target.Some? {
      cgs.AddBi(curr, target.value);
    }
    cgs.FlushEvents();
    assert cgs.events[..0] == [];
    out := cgs.out;
    assert cgs.scan.acts == Reference(p, sts, target);
    EquivEmpty(p, out, cgs.scan.acts);
  }

  lemma EquivEmpty(p: Params, out: seq<Out>, acts: seq<Action>)
    requires Equivalent(p, out, [], acts)
    ensures forall env: Env, s: Sim :: Steps(p, env, Going(s), out) == ActAll(p, env, Going(s), acts)
  {
    hide Steps, ActAll;
  }

  /** How many events the queue can hold makes no difference to what the output does. */
  method AnyCapacity(p: Params, capacity: nat, sts: seq<Stmt>, target: Option<nat>)
    returns (out: seq<Out>, out16: seq<Out>)
    requires capacity > 0 && FirstIMark(sts) < |sts|
    ensures forall env: Env, s: Sim :: Steps(p, env, Going(s), out) == Steps(p, env, Going(s), out16)
  {
    out := CgInstrument(p, capacity, sts, target);
    out16 := CgInstrument(p, N_EVENTS, sts, target);
  }

  lemma QueueSuffix(p: Params, evs: seq<Event>, i: nat)
    requires QueueOk(p, evs) && i <= |evs|
    ensures QueueOk(p, evs[i..])
  {
    var rest := evs[i..];
    forall j | 1 <= j < |rest| && !IsFetch(rest[j])
      ensures rest[j].inode == rest[j - 1].inode
    {
      assert rest[j] == evs[i + j] && rest[j - 1] == evs[i + j - 1];
    }
  }
}
