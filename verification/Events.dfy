/** What Cachegrind's run-time helpers do: the events of cg_main.c and their effect on the simulated
    caches, predictors and per-line counters. */
module Events {
  import opened MachineWords
  import opened CacheSim
  import BP = BranchPred

  datatype Settings = Settings(i1Line: nat, d1Line: nat, llLine: nat, cacheSim: bool, branchSim: bool,
                               zeroBits: nat, minInstr: nat)
  type Params = p: Settings | p.i1Line > 0 && p.d1Line > 0 && p.llLine > 0
    witness Settings(16, 16, 16, true, true, 0, 1)

  type Cache = rows: Rows | NonEmpty(rows) witness [[0]]
  type CondTable = p: BP.Predictor | |p.counters| == BP.N_COUNTERS witness BP.Predictor(0, seq(BP.N_COUNTERS, _ => 0))
  type TargetTable = t: seq<nat> | |t| == BP.N_BTAC witness seq(BP.N_BTAC, _ => 0)

  datatype CC = CC(a: nat, m1: nat, mL: nat)
  datatype BranchCC = BranchCC(b: nat, mp: nat)
  datatype LineCC = LineCC(ir: CC, dr: CC, dw: CC, bc: BranchCC, bi: BranchCC)

  const ZERO_LINE := LineCC(CC(0, 0, 0), CC(0, 0, 0), CC(0, 0, 0), BranchCC(0, 0), BranchCC(0, 0))

  /** The simulated machine and the counters of each source line. */
  datatype Sim = Sim(i1: Cache, d1: Cache, ll: Cache, cond: CondTable, btac: TargetTable, lines: map<nat, LineCC>)

  /** How a piece of instrumented code leaves the simulation: still running, having left the block
      through a side exit, or stopped by the simulator's own panic. */
  datatype Run = Going(sim: Sim) | Left(sim: Sim) | Aborted

  /** One instruction of the block: its bin number, address, length and source line. */
  datatype Inode = Inode(bin: nat, addr: nat, len: nat, line: nat)

  // ---------------------------------------------------------------------------
  // Counting

  function Inc(n: nat, yes: bool): nat {
    if yes then (n + 1) % W64 else n
  }

  function Count(c: CC, m1: bool, mL: bool): CC {
    CC(Inc(c.a, true), Inc(c.m1, m1), Inc(c.mL, mL))
  }

  function CountBranch(c: BranchCC, mp: bool): BranchCC {
    BranchCC(Inc(c.b, true), Inc(c.mp, mp))
  }

  function Line(s: Sim, n: Inode): LineCC {
    if n.line in s.lines then s.lines[n.line] else ZERO_LINE
  }

  function CountIr(s: Sim, n: Inode, m1: bool, mL: bool): Sim {
    s.(lines := s.lines[n.line := Line(s, n).(ir := Count(Line(s, n).ir, m1, mL))])
  }

  function CountD(s: Sim, n: Inode, write: bool, m1: bool, mL: bool): Sim {
    var c := Line(s, n);
    s.(lines := s.lines[n.line := if write then c.(dw := Count(c.dw, m1, mL)) else c.(dr := Count(c.dr, m1, mL))])
  }

  // ---------------------------------------------------------------------------
  // References

  /** log_1Ir */
  function FetchOnly(s: Sim, n: Inode): Run {
    Going(s.(lines := s.lines[n.line := Line(s, n).(ir := Line(s, n).ir.(a := Inc(Line(s, n).ir.a, true)))]))
  }

  /** Sizes are passed to the simulator as single bytes. */
  function UChar(n: nat): nat {
    n % 256
  }

  /** cachesim_I1_doref_Gen and its counting */
  function FetchGen(p: Params, s: Sim, n: Inode): Run {
    var (i1, o) := Ref(p.i1Line, s.i1, n.addr, UChar(n.len));
    if o == Panic then Aborted
    else if o == Hit then Going(CountIr(s.(i1 := i1), n, false, false))
    else
      var (ll, o2) := Ref(p.llLine, s.ll, n.addr, UChar(n.len));
      if o2 == Panic then Aborted
      else Going(CountIr(s.(i1 := i1, ll := ll), n, true, o2 == Miss))
  }

  /** cachesim_I1_doref_NoX and its counting: one line, the same block number in both caches */
  function FetchNoX(p: Params, s: Sim, n: Inode): Run {
    var block := n.addr / p.i1Line;
    var i1 := RefBlock(s.i1, block);
    if Holds(s.i1, block) then Going(CountIr(s.(i1 := i1), n, false, false))
    else Going(CountIr(s.(i1 := i1, ll := RefBlock(s.ll, block)), n, true, !Holds(s.ll, block)))
  }

  /** cachesim_is_IrNoX */
  predicate IsNoX(p: Params, n: Inode) {
    p.i1Line == p.llLine && n.addr / p.i1Line == (n.addr + UChar(n.len) - 1) % W64 / p.i1Line
  }

  /** The single-line shortcut does what the general case does wherever it is taken. */
  lemma NoXIsGen(p: Params, s: Sim, n: Inode)
    requires IsNoX(p, n)
    ensures FetchNoX(p, s, n) == FetchGen(p, s, n)
  {
    hide RefBlock, Holds, CountIr;
  }

  /** cachesim_D1_doref and its counting */
  function DataRef(p: Params, s: Sim, n: Inode, a: nat, size: nat, write: bool): Run {
    var (d1, o) := Ref(p.d1Line, s.d1, a, UChar(size));
    if o == Panic then Aborted
    else if o == Hit then Going(CountD(s.(d1 := d1), n, write, false, false))
    else
      var (ll, o2) := Ref(p.llLine, s.ll, a, UChar(size));
      if o2 == Panic then Aborted
      else Going(CountD(s.(d1 := d1, ll := ll), n, write, true, o2 == Miss))
  }

  /** log_cond_branch */
  function CondBranch(p: Params, s: Sim, n: Inode, taken: bool): Run {
    var c := Line(s, n);
    var mp := BP.Mispredicts(s.cond, n.addr, taken, p.zeroBits);
    Going(s.(cond := BP.Next(s.cond, n.addr, taken, p.zeroBits),
             lines := s.lines[n.line := c.(bc := CountBranch(c.bc, mp))]))
  }

  /** log_ind_branch */
  function IndBranch(p: Params, s: Sim, n: Inode, dst: nat): Run {
    var c := Line(s, n);
    var slot := BP.TargetSlot(n.addr, p.zeroBits);
    Going(s.(btac := s.btac[slot := dst],
             lines := s.lines[n.line := c.(bi := CountBranch(c.bi, s.btac[slot] != dst))]))
  }

  // ---------------------------------------------------------------------------
  // Events and helper calls

  /** Values of the block's temporaries; each is assigned once. */
  type Env = nat -> nat

  datatype Event =
    | IrNoX(inode: Inode)
    | IrGen(inode: Inode)
    | Dr(inode: Inode, ea: nat, szB: nat)
    | Dw(inode: Inode, ea: nat, szB: nat)
    | Dm(inode: Inode, ea: nat, szB: nat)
    | Bc(inode: Inode, guard: nat, inverted: bool)
    | Bi(inode: Inode, dst: nat)

  /** The effect of an event, simulated on its own. */
  function Simulate(p: Params, env: Env, s: Sim, e: Event): Run {
    match e
    case IrNoX(n) => if p.cacheSim then FetchGen(p, s, n) else FetchOnly(s, n)
    case IrGen(n) => if p.cacheSim then FetchGen(p, s, n) else FetchOnly(s, n)
    case Dr(n, ea, szB) => DataRef(p, s, n, env(ea), szB, false)
    case Dm(n, ea, szB) => DataRef(p, s, n, env(ea), szB, false)
    case Dw(n, ea, szB) => DataRef(p, s, n, env(ea), szB, true)
    case Bc(n, guard, inverted) => CondBranch(p, s, n, (env(guard) != 0) != inverted)
    case Bi(n, dst) => IndBranch(p, s, n, env(dst))
  }

  datatype Helper =
    | Log1Ir(n: Inode)
    | Log2Ir(n: Inode, n2: Inode)
    | Log3Ir(n: Inode, n2: Inode, n3: Inode)
    | Log1IrGen(n: Inode)
    | Log1IrNoX(n: Inode)
    | Log2IrNoX(n: Inode, n2: Inode)
    | Log3IrNoX(n: Inode, n2: Inode, n3: Inode)
    | Log1IrNoX1Dr(n: Inode, ea: nat, szB: nat)
    | Log1IrNoX1Dw(n: Inode, ea: nat, szB: nat)
    | Log0Ir1Dr(n: Inode, ea: nat, szB: nat)
    | Log0Ir1Dw(n: Inode, ea: nat, szB: nat)
    | LogCond(n: Inode, guard: nat, inverted: bool)
    | LogInd(n: Inode, dst: nat)

  function ThenFetchOnly(r: Run, n: Inode): Run {
    if r.Going? then FetchOnly(r.sim, n) else r
  }

  function ThenFetchNoX(p: Params, r: Run, n: Inode): Run {
    if r.Going? then FetchNoX(p, r.sim, n) else r
  }

  function ThenData(p: Params, r: Run, n: Inode, a: nat, size: nat, write: bool): Run {
    if r.Going? then DataRef(p, r.sim, n, a, size, write) else r
  }

  /** The log_* helpers. */
  function Help(p: Params, env: Env, s: Sim, h: Helper): Run {
    match h
    case Log1Ir(n) => FetchOnly(s, n)
    case Log2Ir(n, n2) => ThenFetchOnly(FetchOnly(s, n), n2)
    case Log3Ir(n, n2, n3) => ThenFetchOnly(ThenFetchOnly(FetchOnly(s, n), n2), n3)
    case Log1IrGen(n) => FetchGen(p, s, n)
    case Log1IrNoX(n) => FetchNoX(p, s, n)
    case Log2IrNoX(n, n2) => ThenFetchNoX(p, FetchNoX(p, s, n), n2)
    case Log3IrNoX(n, n2, n3) => ThenFetchNoX(p, ThenFetchNoX(p, FetchNoX(p, s, n), n2), n3)
    case Log1IrNoX1Dr(n, ea, szB) => ThenData(p, FetchNoX(p, s, n), n, env(ea), szB, false)
    case Log1IrNoX1Dw(n, ea, szB) => ThenData(p, FetchNoX(p, s, n), n, env(ea), szB, true)
    case Log0Ir1Dr(n, ea, szB) => DataRef(p, s, n, env(ea), szB, false)
    case Log0Ir1Dw(n, ea, szB) => DataRef(p, s, n, env(ea), szB, true)
    case LogCond(n, guard, inverted) => CondBranch(p, s, n, (env(guard) != 0) != inverted)
    case LogInd(n, dst) => IndBranch(p, s, n, env(dst))
  }
}
