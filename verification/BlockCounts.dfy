/** What a block counts, told from its statements, the values of its temporaries and the caches it starts with: the
    references it makes and the branches it takes, which of them miss or are mispredicted, and the counters of every
    source line. */
module BlockCounts {
  import opened MachineWords
  import opened Wrappers
  import opened CacheSim
  import BH = BranchHistory
  import opened Events
  import opened Instrument

  /** Something a block does that is counted for a source line */
  datatype Post =
    | Fetch(line: nat, a: nat, size: nat)
    | Data(line: nat, write: bool, a: nat, size: nat)
    | Cond(line: nat, addr: nat, taken: bool)
    | Ind(line: nat, addr: nat, dst: nat)

  // ---------------------------------------------------------------------------
  // What the statements do

  /** The last instruction mark among the first n statements */
  function MarkBefore(sts: seq<Stmt>, n: nat): (m: Option<nat>)
    requires n <= |sts|
    ensures m.Some? ==> m.value < n && sts[m.value].IMark?
  {
    if n == 0 then None else if sts[n - 1].IMark? then Some(n - 1) else MarkBefore(sts, n - 1)
  }

  /** One of the first n statements was an exit, and it was taken. */
  ghost predicate Stopped(env: Env, sts: seq<Stmt>, n: nat)
    requires n <= |sts|
  {
    exists j :: 0 <= j < n && sts[j].Exit? && env(sts[j].guard) != 0
  }

  /** No access is longer than the shortest line. */
  function Cut(p: Params, szB: nat): nat {
    Min(szB, Min(p.i1Line, Min(p.d1Line, p.llLine)))
  }

  /** The read that a write by statement n would join: the last thing the instruction has done so far */
  function OpenRead(p: Params, sts: seq<Stmt>, n: nat): Option<(nat, nat)>
    requires n <= |sts|
  {
    if n == 0 || MarkBefore(sts, n).None? then None
    else match sts[n - 1]
      case Plain => OpenRead(p, sts, n - 1)
      case Load(ea, szB) => Some((ea, szB))
      case Dirty(fx, ea, szB) =>
        if fx == NoFx then OpenRead(p, sts, n - 1) else if fx == ReadFx then Some((ea, Cut(p, szB))) else None
      case _ => None
  }

  function Length(p: Params, len: nat): nat {
    if len == 0 then p.minInstr else len
  }

  /** What statement i does if it is reached; m is the mark of its instruction. */
  function Posts(p: Params, env: Env, sts: seq<Stmt>, i: nat, m: nat): seq<Post>
    requires i < |sts| && m < |sts| && sts[m].IMark?
  {
    var line := sts[m].line;
    match sts[i]
    case Plain => []
    case IMark(addr, len, l) => [Fetch(l, addr, Length(p, len) % 256)]
    case Load(ea, szB) => Access(p, line, false, env(ea), szB)
    case LoadLinked(ea, szB) => Access(p, line, false, env(ea), szB)
    case CAS(ea, szB) => Access(p, line, false, env(ea), Cut(p, szB))
    case Store(ea, szB) =>
      if OpenRead(p, sts, i) == Some((ea, szB)) then [] else Access(p, line, true, env(ea), szB)
    case StoreCond(ea, szB) =>
      if OpenRead(p, sts, i) == Some((ea, szB)) then [] else Access(p, line, true, env(ea), szB)
    case LoadG(ea, szB, guard) => if env(guard) != 0 then Access(p, line, false, env(ea), szB) else []
    case StoreG(ea, szB, guard) => if env(guard) != 0 then Access(p, line, true, env(ea), szB) else []
    case Dirty(fx, ea, szB) =>
      if fx == NoFx || (fx == WriteFx && OpenRead(p, sts, i) == Some((ea, Cut(p, szB)))) then []
      else Access(p, line, fx == WriteFx, env(ea), Cut(p, szB))
    case Exit(guard, guestBranch, dst) =>
      // taken means that the next instruction is not the one that follows
      var falls := (sts[m].addr + Length(p, sts[m].len)) % W64 == dst;
      if guestBranch && p.branchSim then [Cond(line, sts[m].addr, (env(guard) != 0) != falls)] else []
  }

  function Access(p: Params, line: nat, write: bool, a: nat, szB: nat): seq<Post> {
    if p.cacheSim then [Data(line, write, a, szB % 256)] else []
  }

  /** What the first n statements do */
  ghost function Trace(p: Params, env: Env, sts: seq<Stmt>, n: nat): seq<Post>
    requires n <= |sts|
  {
    if n == 0 then []
    else
      var m := MarkBefore(sts, n);
      Trace(p, env, sts, n - 1) +
        if m.Some? && !Stopped(env, sts, n - 1) then Posts(p, env, sts, n - 1, m.value) else []
  }

  /** What the whole block does, the indirect jump or call it may end in included */
  ghost function Whole(p: Params, env: Env, sts: seq<Stmt>, target: Option<nat>): seq<Post> {
    var m := MarkBefore(sts, |sts|);
    Trace(p, env, sts, |sts|) +
      if target.Some? && p.branchSim && m.Some? && !Stopped(env, sts, |sts|)
      then [Ind(sts[m.value].line, sts[m.value].addr, env(target.value))] else []
  }

  // ---------------------------------------------------------------------------
  // What is counted for it

  function Fetches(p: Params, tr: seq<Post>): seq<(nat, nat)> {
    if tr == [] then []
    else
      var x := tr[|tr| - 1];
      Fetches(p, tr[..|tr| - 1]) + if x.Fetch? && p.cacheSim then [(x.a, x.size)] else []
  }

  function Datas(tr: seq<Post>): seq<(nat, nat)> {
    if tr == [] then []
    else
      var x := tr[|tr| - 1];
      Datas(tr[..|tr| - 1]) + if x.Data? then [(x.a, x.size)] else []
  }

  function Conds(tr: seq<Post>): seq<BP.Branch> {
    if tr == [] then []
    else
      var x := tr[|tr| - 1];
      Conds(tr[..|tr| - 1]) + if x.Cond? then [(x.addr, x.taken)] else []
  }

  /** Whether x, coming after `past`, misses its own first-level cache */
  predicate MissesL1(p: Params, s: Sim, past: seq<Post>, x: Post) {
    if x.Fetch? then p.cacheSim && Ref(p.i1Line, RefAll(p.i1Line, s.i1, Fetches(p, past)), x.a, x.size).1 == Miss
    else x.Data? && Ref(p.d1Line, RefAll(p.d1Line, s.d1, Datas(past)), x.a, x.size).1 == Miss
  }

  /** The references that get through to the last level */
  function Missing(p: Params, s: Sim, tr: seq<Post>): seq<(nat, nat)> {
    if tr == [] then []
    else
      var past, x := tr[..|tr| - 1], tr[|tr| - 1];
      Missing(p, s, past) + if MissesL1(p, s, past, x) then [(x.a, x.size)] else []
  }

  predicate MissesLL(p: Params, s: Sim, past: seq<Post>, x: Post) {
    && MissesL1(p, s, past, x)
    && Ref(p.llLine, RefAll(p.llLine, s.ll, Missing(p, s, past)), x.a, x.size).1 == Miss
  }

  function TargetPlace(p: Params, addr: nat): (i: nat)
    ensures i < BP.N_BTAC
  {
    addr / CBits.Pow2(p.zeroBits) % 512
  }

  /** Where the last indirect branch with this place in the table went */
  function LastTarget(p: Params, s: Sim, past: seq<Post>, place: nat): nat
    requires place < BP.N_BTAC
  {
    if past == [] then s.btac[place]
    else
      var x := past[|past| - 1];
      if x.Ind? && TargetPlace(p, x.addr) == place then x.dst else LastTarget(p, s, past[..|past| - 1], place)
  }

  predicate Mispredicted(p: Params, s: Sim, past: seq<Post>, x: Post) {
    if x.Cond? then BP.Mispredicts(BH.After(s.cond, Conds(past), p.zeroBits), x.addr, x.taken, p.zeroBits)
    else x.Ind? && LastTarget(p, s, past, TargetPlace(p, x.addr)) != x.dst
  }

  datatype Kind = Ir | Rd | Wr | Br | Jp
  datatype Question = Happens | InL1 | InLL | Wrongly

  function KindOf(x: Post): Kind {
    match x
    case Fetch(_, _, _) => Ir
    case Data(_, write, _, _) => if write then Wr else Rd
    case Cond(_, _, _) => Br
    case Ind(_, _, _) => Jp
  }

  predicate Asked(p: Params, s: Sim, past: seq<Post>, x: Post, q: Question) {
    match q
    case Happens => true
    case InL1 => MissesL1(p, s, past, x)
    case InLL => MissesLL(p, s, past, x)
    case Wrongly => Mispredicted(p, s, past, x)
  }

  /** How many things of a kind are done for a line, how many of them miss, and how many are mispredicted */
  function Count(p: Params, s: Sim, tr: seq<Post>, line: nat, kind: Kind, q: Question): nat {
    if tr == [] then 0
    else
      var past, x := tr[..|tr| - 1], tr[|tr| - 1];
      Count(p, s, past, line, kind, q) + if x.line == line && KindOf(x) == kind && Asked(p, s, past, x, q) then 1 else 0
  }

  /** A 64-bit counter k steps on */
  function Grown(n: nat, k: nat): nat {
    if k == 0 then n else (n + k) % W64
  }

  function LineAt(s: Sim, line: nat): LineCC {
    if line in s.lines then s.lines[line] else ZERO_LINE
  }

  /** The counters of one line after the trace */
  ghost predicate Counted(p: Params, s: Sim, tr: seq<Post>, sim: Sim, line: nat) {
    var was, now := LineAt(s, line), LineAt(sim, line);
    && now.ir == Refs(p, s, tr, line, Ir, was.ir)
    && now.dr == Refs(p, s, tr, line, Rd, was.dr)
    && now.dw == Refs(p, s, tr, line, Wr, was.dw)
    && now.bc == Branches(p, s, tr, line, Br, was.bc)
    && now.bi == Branches(p, s, tr, line, Jp, was.bi)
  }

  function Refs(p: Params, s: Sim, tr: seq<Post>, line: nat, kind: Kind, c: CC): CC {
    CC(Grown(c.a, Count(p, s, tr, line, kind, Happens)), Grown(c.m1, Count(p, s, tr, line, kind, InL1)),
       Grown(c.mL, Count(p, s, tr, line, kind, InLL)))
  }

  function Branches(p: Params, s: Sim, tr: seq<Post>, line: nat, kind: Kind, c: BranchCC): BranchCC {
    BranchCC(Grown(c.b, Count(p, s, tr, line, kind, Happens)), Grown(c.mp, Count(p, s, tr, line, kind, Wrongly)))
  }

  /** The machine after the trace */
  ghost predicate Machine(p: Params, s: Sim, tr: seq<Post>, sim: Sim) {
    && sim.i1 == RefAll(p.i1Line, s.i1, Fetches(p, tr)) && sim.d1 == RefAll(p.d1Line, s.d1, Datas(tr))
    && sim.ll == RefAll(p.llLine, s.ll, Missing(p, s, tr))
    && sim.cond == BH.After(s.cond, Conds(tr), p.zeroBits)
    && forall place :: 0 <= place < BP.N_BTAC ==> sim.btac[place] == LastTarget(p, s, tr, place)
  }

  ghost predicate Booked(p: Params, s: Sim, tr: seq<Post>, sim: Sim) {
    Machine(p, s, tr, sim) && forall line: nat :: Counted(p, s, tr, sim, line)
  }

  // ---------------------------------------------------------------------------
  // One event

  /** What an event does */
  function PostOf(env: Env, e: Event): Post {
    match e
    case IrNoX(n) => Fetch(n.line, n.addr, n.len % 256)
    case IrGen(n) => Fetch(n.line, n.addr, n.len % 256)
    case Dr(n, ea, szB) => Data(n.line, false, env(ea), szB % 256)
    case Dm(n, ea, szB) => Data(n.line, false, env(ea), szB % 256)
    case Dw(n, ea, szB) => Data(n.line, true, env(ea), szB % 256)
    case Bc(n, guard, inverted) => Cond(n.line, n.addr, (env(guard) != 0) != inverted)
    case Bi(n, dst) => Ind(n.line, n.addr, env(dst))
  }

  lemma GrownOnce(n: nat, k: nat)
    ensures Inc(Grown(n, k), true) == Grown(n, k + 1)
  {
    ModAdd(n + k, 1, W64);
  }

  /** The counts after one thing more */
  lemma CountMore(p: Params, s: Sim, tr: seq<Post>, x: Post, line: nat, kind: Kind, q: Question)
    ensures Count(p, s, tr + [x], line, kind, q) ==
      Count(p, s, tr, line, kind, q) + if x.line == line && KindOf(x) == kind && Asked(p, s, tr, x, q) then 1 else 0
  {
    hide Asked;
    assert (tr + [x])[..|tr|] == tr;
  }

  lemma RefsMore(p: Params, s: Sim, tr: seq<Post>, x: Post, line: nat, kind: Kind, c: CC)
    ensures var r := Refs(p, s, tr, line, kind, c);
      Refs(p, s, tr + [x], line, kind, c) ==
        if x.line == line && KindOf(x) == kind
        then CC(Inc(r.a, true), Inc(r.m1, MissesL1(p, s, tr, x)), Inc(r.mL, MissesLL(p, s, tr, x))) else r
  {
    hide MissesL1, MissesLL, Count, Grown;
    CountMore(p, s, tr, x, line, kind, Happens);
    CountMore(p, s, tr, x, line, kind, InL1);
    CountMore(p, s, tr, x, line, kind, InLL);
    GrownOnce(c.a, Count(p, s, tr, line, kind, Happens));
    GrownOnce(c.m1, Count(p, s, tr, line, kind, InL1));
    GrownOnce(c.mL, Count(p, s, tr, line, kind, InLL));
  }

  lemma BranchesMore(p: Params, s: Sim, tr: seq<Post>, x: Post, line: nat, kind: Kind, c: BranchCC)
    ensures var r := Branches(p, s, tr, line, kind, c);
      Branches(p, s, tr + [x], line, kind, c) ==
        if x.line == line && KindOf(x) == kind
        then BranchCC(Inc(r.b, true), Inc(r.mp, Mispredicted(p, s, tr, x))) else r
  {
    hide Mispredicted, Count, Grown;
    CountMore(p, s, tr, x, line, kind, Happens);
    CountMore(p, s, tr, x, line, kind, Wrongly);
    GrownOnce(c.b, Count(p, s, tr, line, kind, Happens));
    GrownOnce(c.mp, Count(p, s, tr, line, kind, Wrongly));
  }

  /** How one thing more changes the counters of a line */
  ghost predicate LineStep(p: Params, s: Sim, tr: seq<Post>, x: Post, was: LineCC, now: LineCC) {
    var c := (cc: CC) => CC(Inc(cc.a, true), Inc(cc.m1, MissesL1(p, s, tr, x)), Inc(cc.mL, MissesLL(p, s, tr, x)));
    var b := (cc: BranchCC) => BranchCC(Inc(cc.b, true), Inc(cc.mp, Mispredicted(p, s, tr, x)));
    match KindOf(x)
    case Ir => now == was.(ir := c(was.ir))
    case Rd => now == was.(dr := c(was.dr))
    case Wr => now == was.(dw := c(was.dw))
    case Br => now == was.(bc := b(was.bc))
    case Jp => now == was.(bi := b(was.bi))
  }

  lemma CountedMore(p: Params, s: Sim, tr: seq<Post>, x: Post, sim: Sim, sim': Sim, line: nat)
    requires Counted(p, s, tr, sim, line)
    requires if line == x.line then LineStep(p, s, tr, x, LineAt(sim, line), LineAt(sim', line))
             else LineAt(sim', line) == LineAt(sim, line)
    ensures Counted(p, s, tr + [x], sim', line)
  {
    hide MissesL1, MissesLL, Mispredicted, Refs, Branches, LineAt, Inc;
    var was := LineAt(s, line);
    RefsMore(p, s, tr, x, line, Ir, was.ir);
    RefsMore(p, s, tr, x, line, Rd, was.dr);
    RefsMore(p, s, tr, x, line, Wr, was.dw);
    BranchesMore(p, s, tr, x, line, Br, was.bc);
    BranchesMore(p, s, tr, x, line, Jp, was.bi);
  }

  lemma RefAllMore(lineSize: nat, rows: Rows, refs: seq<(nat, nat)>, a: nat, size: nat)
    requires lineSize > 0 && NonEmpty(rows)
    ensures RefAll(lineSize, rows, refs + [(a, size)]) == Ref(lineSize, RefAll(lineSize, rows, refs), a, size).0
  {
    assert (refs + [(a, size)])[..|refs|] == refs;
  }

  lemma TraceMore(p: Params, s: Sim, tr: seq<Post>, x: Post)
    ensures Fetches(p, tr + [x]) == Fetches(p, tr) + if x.Fetch? && p.cacheSim then [(x.a, x.size)] else []
    ensures Datas(tr + [x]) == Datas(tr) + if x.Data? then [(x.a, x.size)] else []
    ensures Conds(tr + [x]) == Conds(tr) + if x.Cond? then [(x.addr, x.taken)] else []
    ensures Missing(p, s, tr + [x]) == Missing(p, s, tr) + if MissesL1(p, s, tr, x) then [(x.a, x.size)] else []
    ensures forall place :: 0 <= place < BP.N_BTAC ==>
      LastTarget(p, s, tr + [x], place) ==
        if x.Ind? && TargetPlace(p, x.addr) == place then x.dst else LastTarget(p, s, tr, place)
  {
    hide MissesL1, TargetPlace;
    assert (tr + [x])[..|tr|] == tr;
  }

  /** The counters of one line changed, the others did not. */
  lemma AllCounted(p: Params, s: Sim, tr: seq<Post>, x: Post, sim: Sim, sim': Sim, now: LineCC)
    requires forall line: nat :: Counted(p, s, tr, sim, line)
    requires sim'.lines == sim.lines[x.line := now] && LineStep(p, s, tr, x, LineAt(sim, x.line), now)
    ensures forall line: nat :: Counted(p, s, tr + [x], sim', line)
  {
    hide Counted, LineStep;
    forall line: nat
      ensures Counted(p, s, tr + [x], sim', line)
    {
      CountedMore(p, s, tr, x, sim, sim', line);
    }
  }

  lemma FetchBooked(p: Params, env: Env, s: Sim, tr: seq<Post>, sim: Sim, n: Inode, sim': Sim)
    requires Booked(p, s, tr, sim)
    requires if p.cacheSim then FetchGen(p, sim, n) == Going(sim') else FetchOnly(sim, n) == Going(sim')
    ensures Booked(p, s, tr + [Fetch(n.line, n.addr, n.len % 256)], sim')
  {
    hide Ref, RefAll, Counted, Fetches, Datas, Conds, Missing, LastTarget;
    var x := Fetch(n.line, n.addr, n.len % 256);
    TraceMore(p, s, tr, x);
    RefAllMore(p.i1Line, s.i1, Fetches(p, tr), x.a, x.size);
    RefAllMore(p.llLine, s.ll, Missing(p, s, tr), x.a, x.size);
    Unchanged(p, s, tr);
    AllCounted(p, s, tr, x, sim, sim', LineAt(sim', x.line));
  }

  lemma Unchanged(p: Params, s: Sim, tr: seq<Post>)
    ensures Fetches(p, tr) + [] == Fetches(p, tr) && Datas(tr) + [] == Datas(tr) && Conds(tr) + [] == Conds(tr)
    ensures Missing(p, s, tr) + [] == Missing(p, s, tr)
  {
  }

  lemma DataBooked(p: Params, s: Sim, tr: seq<Post>, sim: Sim, n: Inode, a: nat, szB: nat, write: bool, sim': Sim)
    requires Booked(p, s, tr, sim) && DataRef(p, sim, n, a, szB, write) == Going(sim')
    ensures Booked(p, s, tr + [Data(n.line, write, a, szB % 256)], sim')
  {
    hide Ref, RefAll, Counted, Fetches, Datas, Conds, Missing, LastTarget, Inc;
    var x := Data(n.line, write, a, szB % 256);
    TraceMore(p, s, tr, x);
    RefAllMore(p.d1Line, s.d1, Datas(tr), x.a, x.size);
    RefAllMore(p.llLine, s.ll, Missing(p, s, tr), x.a, x.size);
    Unchanged(p, s, tr);
    AllCounted(p, s, tr, x, sim, sim', LineAt(sim', x.line));
  }

  lemma AfterMore(q: BP.Predictor, run: seq<BP.Branch>, b: BP.Branch, zeroBits: nat)
    requires |q.counters| == BP.N_COUNTERS
    ensures BH.After(q, run + [b], zeroBits) == BP.Next(BH.After(q, run, zeroBits), b.0, b.1, zeroBits)
  {
    assert (run + [b])[..|run|] == run;
  }

  lemma CondBooked(p: Params, s: Sim, tr: seq<Post>, sim: Sim, n: Inode, taken: bool, sim': Sim)
    requires Booked(p, s, tr, sim) && CondBranch(p, sim, n, taken) == Going(sim')
    ensures Booked(p, s, tr + [Cond(n.line, n.addr, taken)], sim')
  {
    hide Ref, RefAll, Counted, Fetches, Datas, Conds, Missing, LastTarget, Inc, BP.Next, BP.Mispredicts, BH.After;
    var x := Cond(n.line, n.addr, taken);
    TraceMore(p, s, tr, x);
    AfterMore(s.cond, Conds(tr), (n.addr, taken), p.zeroBits);
    Unchanged(p, s, tr);
    AllCounted(p, s, tr, x, sim, sim', LineAt(sim', x.line));
  }

  lemma IndBooked(p: Params, s: Sim, tr: seq<Post>, sim: Sim, n: Inode, dst: nat, sim': Sim)
    requires Booked(p, s, tr, sim) && IndBranch(p, sim, n, dst) == Going(sim')
    ensures Booked(p, s, tr + [Ind(n.line, n.addr, dst)], sim')
  {
    CBits.ShrIsDiv(n.addr, p.zeroBits);
    assert BP.TargetSlot(n.addr, p.zeroBits) == TargetPlace(p, n.addr);
    hide Ref, RefAll, Counted, Fetches, Datas, Conds, Missing, LastTarget, Inc, BP.TargetSlot, TargetPlace;
    var x := Ind(n.line, n.addr, dst);
    TraceMore(p, s, tr, x);
    Unchanged(p, s, tr);
    AllCounted(p, s, tr, x, sim, sim', LineAt(sim', x.line));
  }

  /** Simulating an event books what it does. */
  lemma EventBooked(p: Params, env: Env, s: Sim, tr: seq<Post>, sim: Sim, e: Event)
    requires Booked(p, s, tr, sim)
    ensures var r := Simulate(p, env, sim, e);
      r.Aborted? || (r.Going? && Booked(p, s, tr + [PostOf(env, e)], r.sim))
  {
    hide Booked, FetchGen, FetchOnly, DataRef, CondBranch, IndBranch;
    var r := Simulate(p, env, sim, e);
    NeverLeaves(p, env, sim, e);
    if r.Going? {
      match e
      case IrNoX(n) => FetchBooked(p, env, s, tr, sim, n, r.sim);
      case IrGen(n) => FetchBooked(p, env, s, tr, sim, n, r.sim);
      case Dr(n, ea, szB) => DataBooked(p, s, tr, sim, n, env(ea), szB, false, r.sim);
      case Dm(n, ea, szB) => DataBooked(p, s, tr, sim, n, env(ea), szB, false, r.sim);
      case Dw(n, ea, szB) => DataBooked(p, s, tr, sim, n, env(ea), szB, true, r.sim);
      case Bc(n, guard, inverted) => CondBooked(p, s, tr, sim, n, (env(guard) != 0) != inverted, r.sim);
      case Bi(n, dst) => IndBooked(p, s, tr, sim, n, env(dst), r.sim);
    }
  }

  lemma NeverLeaves(p: Params, env: Env, sim: Sim, e: Event)
    ensures !Simulate(p, env, sim, e).Left?
  {
    hide Ref, CountIr, CountD;
  }

  lemma NothingBooked(p: Params, s: Sim)
    ensures Booked(p, s, [], s)
  {
  }

  // ---------------------------------------------------------------------------
  // Whole blocks

  /** Where a run stands after n statements: still going or out through an exit, with everything booked */
  ghost predicate Stands(p: Params, env: Env, s: Sim, sts: seq<Stmt>, n: nat, r: Run)
    requires n <= |sts|
  {
    !r.Aborted? ==> (r.Left? <==> Stopped(env, sts, n)) && Booked(p, s, Trace(p, env, sts, n), r.sim)
  }

  lemma ActMore(p: Params, env: Env, r: Run, acts: seq<Action>, a: Action)
    ensures ActAll(p, env, r, acts + [a]) == Act(p, env, ActAll(p, env, r, acts), a)
  {
    assert (acts + [a])[..|acts|] == acts;
  }

  lemma StoppedMore(env: Env, sts: seq<Stmt>, n: nat)
    requires n < |sts|
    ensures Stopped(env, sts, n + 1) <==> Stopped(env, sts, n) || (sts[n].Exit? && env(sts[n].guard) != 0)
  {
  }

  /** Before the first instruction mark only exits matter. */
  lemma {:induction false} PreambleStands(p: Params, env: Env, s: Sim, sts: seq<Stmt>, n: nat)
    requires n <= FirstIMark(sts)
    ensures MarkBefore(sts, n).None? && Trace(p, env, sts, n) == []
    ensures Stands(p, env, s, sts, n, ActAll(p, env, Going(s), PreambleActs(sts[..n])))
  {
    hide Booked, Stopped, FirstIMark, ActAll, Simulate, Posts, PreambleActs;
    if n == 0 {
      assert sts[..0] == [];
      NoActs(p, env, s);
      NothingBooked(p, s);
      NotStopped(env, sts);
    } else {
      PreambleStands(p, env, s, sts, n - 1);
      NoMark(sts, n - 1);
      StoppedMore(env, sts, n - 1);
      PreambleMore(p, env, s, sts, n - 1);
    }
  }

  lemma NoActs(p: Params, env: Env, s: Sim)
    ensures ActAll(p, env, Going(s), PreambleActs([])) == Going(s)
  {
  }

  lemma PreambleMore(p: Params, env: Env, s: Sim, sts: seq<Stmt>, n: nat)
    requires n < |sts|
    ensures var r, z := ActAll(p, env, Going(s), PreambleActs(sts[..n])),
        ActAll(p, env, Going(s), PreambleActs(sts[..n + 1]));
      z == if r.Going? && sts[n].Exit? && env(sts[n].guard) != 0 then Left(r.sim) else r
  {
    hide ActAll, Simulate;
    assert sts[..n + 1][..n] == sts[..n];
    var acts := PreambleActs(sts[..n]);
    if sts[n].Exit? {
      ActMore(p, env, Going(s), acts, LeaveIf(sts[n].guard));
    } else {
      assert acts + [] == acts;
    }
  }

  lemma NotStopped(env: Env, sts: seq<Stmt>)
    ensures !Stopped(env, sts, 0)
  {
  }

  lemma NoMark(sts: seq<Stmt>, i: nat)
    requires i < FirstIMark(sts)
    ensures i < |sts| && !sts[i].IMark?
  {
  }

  /** Where the scan stands after n statements */
  ghost predicate InScan(p: Params, sts: seq<Stmt>, n: nat, sc: Scan)
    requires n <= |sts|
  {
    && sc.open == (if p.cacheSim then OpenRead(p, sts, n) else None)
    && (MarkBefore(sts, n).Some? ==>
      var mark := sts[MarkBefore(sts, n).value];
      sc.curr.addr == mark.addr && sc.curr.len == Length(p, mark.len) && sc.curr.line == mark.line)
  }

  /** One action more, of what statement n - 1 does */
  lemma Acted(p: Params, env: Env, s: Sim, tr: seq<Post>, r: Run, e: Event)
    requires !r.Aborted? ==> Booked(p, s, tr, r.sim)
    ensures var z := Act(p, env, r, Do(e));
      && (r.Left? || r.Aborted? ==> z == r)
      && (r.Going? ==> z.Aborted? || (z.Going? && Booked(p, s, tr + [PostOf(env, e)], z.sim)))
  {
    hide Booked, Simulate;
    if r.Going? {
      EventBooked(p, env, s, tr, r.sim, e);
    }
  }

  lemma CutIs(p: Params, szB: nat)
    ensures Capped(p, szB) == Cut(p, szB)
  {
  }

  /** What scanning a statement adds to the actions */
  datatype Added = Nothing | Event(e: Event) | Guarded(guard: nat, e: Event)

  function Actions(a: Added): seq<Action> {
    match a
    case Nothing => []
    case Event(e) => [Do(e)]
    case Guarded(guard, e) => [DoIf(guard, e)]
  }

  function PostsOf(env: Env, a: Added): seq<Post> {
    match a
    case Nothing => []
    case Event(e) => [PostOf(env, e)]
    case Guarded(guard, e) => if env(guard) != 0 then [PostOf(env, e)] else []
  }

  /** The scan keeps track of mark and open read, and adds what the statement does. */
  lemma Scanned(p: Params, env: Env, sts: seq<Stmt>, n: nat, sc: Scan) returns (a: Added)
    requires n < |sts| && MarkBefore(sts, n + 1).Some? && InScan(p, sts, n, sc) && !sts[n].Exit?
    ensures InScan(p, sts, n + 1, ScanStmt(p, sc, sts[n]))
    ensures ScanStmt(p, sc, sts[n]).acts == sc.acts + Actions(a)
    ensures Posts(p, env, sts, n, MarkBefore(sts, n + 1).value) == PostsOf(env, a)
  {
    var st, c := sts[n], sc.curr;
    match st
    case Plain => a := Nothing;
    case IMark(addr, len, line) =>
      var i := Inode(sc.bins, addr, Length(p, len), line);
      a := Event(if IsNoX(p, i) then IrNoX(i) else IrGen(i));
    case Load(ea, szB) => a := if p.cacheSim then Event(Dr(c, ea, szB)) else Nothing;
    case LoadLinked(ea, szB) => a := if p.cacheSim then Event(Dr(c, ea, szB)) else Nothing;
    case CAS(ea, szB) =>
      CutIs(p, szB);
      a := if p.cacheSim then Event(Dr(c, ea, Cut(p, szB))) else Nothing;
    case Store(ea, szB) =>
      a := if p.cacheSim && sc.open != Some((ea, szB)) then Event(Dw(c, ea, szB)) else Nothing;
    case StoreCond(ea, szB) =>
      a := if p.cacheSim && sc.open != Some((ea, szB)) then Event(Dw(c, ea, szB)) else Nothing;
    case LoadG(ea, szB, guard) => a := if p.cacheSim then Guarded(guard, Dr(c, ea, szB)) else Nothing;
    case StoreG(ea, szB, guard) => a := if p.cacheSim then Guarded(guard, Dw(c, ea, szB)) else Nothing;
    case Dirty(fx, ea, szB) =>
      CutIs(p, szB);
      var sz := Cut(p, szB);
      a := if !p.cacheSim || fx == NoFx || (fx == WriteFx && sc.open == Some((ea, sz))) then Nothing
           else Event(if fx == WriteFx then Dw(c, ea, sz) else Dr(c, ea, sz));
  }

  lemma Advanced(p: Params, env: Env, s: Sim, acts: seq<Action>, tr: seq<Post>, a: Added)
    requires var r := ActAll(p, env, Going(s), acts); !r.Aborted? ==> Booked(p, s, tr, r.sim)
    ensures var r, z := ActAll(p, env, Going(s), acts), ActAll(p, env, Going(s), acts + Actions(a));
      && (r.Left? || r.Aborted? ==> z == r)
      && (r.Going? ==> z.Aborted? || (z.Going? && Booked(p, s, tr + PostsOf(env, a), z.sim)))
  {
    hide Booked, Simulate, ActAll;
    match a
    case Nothing =>
      assert acts + [] == acts && tr + [] == tr;
    case Event(e) =>
      ActMore(p, env, Going(s), acts, Do(e));
      Acted(p, env, s, tr, ActAll(p, env, Going(s), acts), e);
    case Guarded(guard, e) =>
      ActMore(p, env, Going(s), acts, DoIf(guard, e));
      Acted(p, env, s, tr, ActAll(p, env, Going(s), acts), e);
      assert tr + [] == tr;
  }

  lemma TraceStep(p: Params, env: Env, sts: seq<Stmt>, n: nat)
    requires n < |sts|
    ensures var m := MarkBefore(sts, n + 1);
      Trace(p, env, sts, n + 1) == Trace(p, env, sts, n) +
        if m.Some? && !Stopped(env, sts, n) then Posts(p, env, sts, n, m.value) else []
  {
  }

  /** A statement that is no exit */
  lemma StmtStands(p: Params, env: Env, s: Sim, sts: seq<Stmt>, n: nat, sc: Scan)
    requires n < |sts| && MarkBefore(sts, n + 1).Some? && InScan(p, sts, n, sc) && !sts[n].Exit?
    requires Stands(p, env, s, sts, n, ActAll(p, env, Going(s), sc.acts))
    ensures var z := ScanStmt(p, sc, sts[n]);
      InScan(p, sts, n + 1, z) && Stands(p, env, s, sts, n + 1, ActAll(p, env, Going(s), z.acts))
  {
    hide Booked, ActAll, ScanStmt, Posts, InScan, Stopped, Trace, MarkBefore;
    var a := Scanned(p, env, sts, n, sc);
    var tr := Trace(p, env, sts, n);
    Advanced(p, env, s, sc.acts, tr, a);
    StoppedMore(env, sts, n);
    TraceStep(p, env, sts, n);
    assert tr + [] == tr;
  }

  /** An exit, with the branch it may stand for */
  lemma ExitStands(p: Params, env: Env, s: Sim, sts: seq<Stmt>, n: nat, sc: Scan)
    requires n < |sts| && MarkBefore(sts, n + 1).Some? && InScan(p, sts, n, sc) && sts[n].Exit?
    requires Stands(p, env, s, sts, n, ActAll(p, env, Going(s), sc.acts))
    ensures var z := ScanStmt(p, sc, sts[n]);
      InScan(p, sts, n + 1, z) && Stands(p, env, s, sts, n + 1, ActAll(p, env, Going(s), z.acts))
  {
    var a := ScannedExit(p, env, sts, n, sc);
    hide Booked, ActAll, ScanStmt, Posts, InScan, Stopped, Trace, MarkBefore, Simulate;
    var tr := Trace(p, env, sts, n);
    Advanced(p, env, s, sc.acts, tr, a);
    ActMore(p, env, Going(s), sc.acts + Actions(a), LeaveIf(sts[n].guard));
    TraceStep(p, env, sts, n);
    ExitTaken(p, env, s, sts, n, ActAll(p, env, Going(s), sc.acts), ActAll(p, env, Going(s), sc.acts + Actions(a)),
              PostsOf(env, a));
  }

  /** r before the exit, z after the branch it stands for */
  lemma ExitTaken(p: Params, env: Env, s: Sim, sts: seq<Stmt>, n: nat, r: Run, z: Run, more: seq<Post>)
    requires n < |sts| && sts[n].Exit? && Stands(p, env, s, sts, n, r)
    requires r.Left? || r.Aborted? ==> z == r
    requires r.Going? ==> z.Aborted? || (z.Going? && Booked(p, s, Trace(p, env, sts, n) + more, z.sim))
    requires Trace(p, env, sts, n + 1) == Trace(p, env, sts, n) + if Stopped(env, sts, n) then [] else more
    ensures Stands(p, env, s, sts, n + 1, Act(p, env, z, LeaveIf(sts[n].guard)))
  {
    hide Booked, Stopped, Trace, Simulate;
    StoppedMore(env, sts, n);
    var tr := Trace(p, env, sts, n);
    assert tr + [] == tr;
  }

  lemma ScannedExit(p: Params, env: Env, sts: seq<Stmt>, n: nat, sc: Scan) returns (a: Added)
    requires n < |sts| && MarkBefore(sts, n + 1).Some? && InScan(p, sts, n, sc) && sts[n].Exit?
    ensures InScan(p, sts, n + 1, ScanStmt(p, sc, sts[n])) && !a.Guarded?
    ensures ScanStmt(p, sc, sts[n]).acts == sc.acts + Actions(a) + [LeaveIf(sts[n].guard)]
    ensures Posts(p, env, sts, n, MarkBefore(sts, n + 1).value) == PostsOf(env, a)
  {
    var st, c := sts[n], sc.curr;
    a := if st.guestBranch && p.branchSim then Event(Bc(c, st.guard, (c.addr + c.len) % W64 == st.dst)) else Nothing;
  }

  /** After the first instruction mark every statement does what it should. */
  lemma {:induction false} ScanStands(p: Params, env: Env, s: Sim, sts: seq<Stmt>, n: nat)
    requires FirstIMark(sts) <= n <= |sts| && FirstIMark(sts) < |sts|
    ensures var k := FirstIMark(sts);
      var sc := ScanAll(p, Scan(Inode(0, 0, 0, 0), 0, None, PreambleActs(sts[..k])), sts[k..n]);
      && InScan(p, sts, n, sc) && (n > k ==> MarkBefore(sts, n).Some?)
      && Stands(p, env, s, sts, n, ActAll(p, env, Going(s), sc.acts))
    decreases n
  {
    hide Booked, ActAll, ScanStmt, Stands, PreambleActs, Posts;
    var k := FirstIMark(sts);
    var start := Scan(Inode(0, 0, 0, 0), 0, None, PreambleActs(sts[..k]));
    if n == k {
      PreambleStands(p, env, s, sts, k);
      assert sts[k..k] == [];
    } else {
      ScanStands(p, env, s, sts, n - 1);
      var sc := ScanAll(p, start, sts[k..n - 1]);
      assert sts[k..n][..n - 1 - k] == sts[k..n - 1] && sts[k..n][n - 1 - k] == sts[n - 1];
      if sts[n - 1].Exit? {
        ExitStands(p, env, s, sts, n - 1, sc);
      } else {
        StmtStands(p, env, s, sts, n - 1, sc);
      }
    }
  }

  /** The reference of a block does what its statements say. */
  lemma ReferenceStands(p: Params, env: Env, s: Sim, sts: seq<Stmt>, target: Option<nat>)
    requires FirstIMark(sts) < |sts|
    ensures var r := ActAll(p, env, Going(s), Reference(p, sts, target));
      r.Aborted? || ((r.Left? <==> Stopped(env, sts, |sts|)) && Booked(p, s, Whole(p, env, sts, target), r.sim))
  {
    hide Booked, ActAll, ScanStmt, ScanAll, PreambleActs, Posts, Trace, Stopped;
    var k, n := FirstIMark(sts), |sts|;
    ScanStands(p, env, s, sts, n);
    assert sts[k..n] == sts[k..];
    var sc := ScanAll(p, Scan(Inode(0, 0, 0, 0), 0, None, PreambleActs(sts[..k])), sts[k..]);
    var a := if target.Some? && p.branchSim then Event(Bi(sc.curr, target.value)) else Nothing;
    var tr := Trace(p, env, sts, n);
    Advanced(p, env, s, sc.acts, tr, a);
    assert tr + [] == tr && sc.acts + [] == sc.acts;
  }

  // ---------------------------------------------------------------------------
  // Counted on the statements

  predicate IsRead(st: Stmt, env: Env) {
    || st.Load? || st.LoadLinked? || st.CAS?
    || (st.Dirty? && (st.fx == ReadFx || st.fx == ModifyFx)) || (st.LoadG? && env(st.guard) != 0)
  }

  /** A write; those that join a read are not counted. */
  predicate IsWrite(p: Params, sts: seq<Stmt>, i: nat, env: Env)
    requires i < |sts|
  {
    var st := sts[i];
    || ((st.Store? || st.StoreCond?) && OpenRead(p, sts, i) != Some((st.ea, st.szB)))
    || (st.Dirty? && st.fx == WriteFx && OpenRead(p, sts, i) != Some((st.ea, Cut(p, st.szB))))
    || (st.StoreG? && env(st.guard) != 0)
  }

  predicate IsKind(p: Params, env: Env, sts: seq<Stmt>, i: nat, kind: Kind)
    requires i < |sts|
  {
    match kind
    case Ir => sts[i].IMark?
    case Rd => p.cacheSim && IsRead(sts[i], env)
    case Wr => p.cacheSim && IsWrite(p, sts, i, env)
    case Br => p.branchSim && sts[i].Exit? && sts[i].guestBranch
    case Jp => false
  }

  /** How many of the first n statements of a kind are reached in instructions of a source line */
  ghost function Number(p: Params, env: Env, sts: seq<Stmt>, n: nat, line: nat, kind: Kind): nat
    requires n <= |sts|
  {
    if n == 0 then 0
    else
      var m := MarkBefore(sts, n);
      Number(p, env, sts, n - 1, line, kind) +
        if m.Some? && sts[m.value].line == line && !Stopped(env, sts, n - 1) && IsKind(p, env, sts, n - 1, kind)
        then 1 else 0
  }

  lemma CountOne(p: Params, env: Env, s: Sim, tr: seq<Post>, sts: seq<Stmt>, i: nat, m: nat, line: nat, kind: Kind)
    requires i < |sts| && m <= i && sts[m].IMark? && (sts[i].IMark? ==> m == i)
    ensures Count(p, s, tr + Posts(p, env, sts, i, m), line, kind, Happens) ==
      Count(p, s, tr, line, kind, Happens) + if sts[m].line == line && IsKind(p, env, sts, i, kind) then 1 else 0
  {
    hide Count, OpenRead, Cut;
    var xs := Posts(p, env, sts, i, m);
    if xs == [] {
      assert tr + xs == tr;
    } else {
      assert xs == [xs[0]];
      CountMore(p, s, tr, xs[0], line, kind, Happens);
    }
  }

  lemma {:induction false} CountIs(p: Params, env: Env, s: Sim, sts: seq<Stmt>, n: nat, line: nat, kind: Kind)
    requires n <= |sts|
    ensures Count(p, s, Trace(p, env, sts, n), line, kind, Happens) == Number(p, env, sts, n, line, kind)
  {
    hide Posts, IsKind, Stopped;
    if n > 0 {
      CountIs(p, env, s, sts, n - 1, line, kind);
      var m, tr := MarkBefore(sts, n), Trace(p, env, sts, n - 1);
      if m.Some? && !Stopped(env, sts, n - 1) {
        CountOne(p, env, s, tr, sts, n - 1, m.value, line, kind);
      } else {
        assert tr + [] == tr;
      }
    }
  }

  lemma WholeIs(p: Params, env: Env, s: Sim, sts: seq<Stmt>, target: Option<nat>, line: nat, kind: Kind)
    requires kind != Jp
    ensures Count(p, s, Whole(p, env, sts, target), line, kind, Happens) == Number(p, env, sts, |sts|, line, kind)
  {
    hide Trace, Stopped, Count, Number;
    var tr := Trace(p, env, sts, |sts|);
    CountIs(p, env, s, sts, |sts|, line, kind);
    assert tr + [] == tr;
    var m := MarkBefore(sts, |sts|);
    if target.Some? && p.branchSim && m.Some? && !Stopped(env, sts, |sts|) {
      CountMore(p, s, tr, Ind(sts[m.value].line, sts[m.value].addr, env(target.value)), line, kind, Happens);
    }
  }

  /** What instrumented code does, told from the block alone.  Unless the simulator panics, the code leaves through
      the exit that is taken, and the caches, the predictors and all counters of all source lines are those of the
      references and branches that the block makes.  So for each line the reads, the writes that join no read, the
      instructions and the branches of the statements reached are counted, once each. */
  method CountsExactly(p: Params, capacity: nat, sts: seq<Stmt>, target: Option<nat>) returns (out: seq<Out>)
    requires capacity > 0 && FirstIMark(sts) < |sts|
    ensures forall env: Env, s: Sim ::
      var r := Steps(p, env, Going(s), out);
      r.Aborted? || ((r.Left? <==> Stopped(env, sts, |sts|)) && Booked(p, s, Whole(p, env, sts, target), r.sim))
    ensures forall env: Env, s: Sim, line: nat ::
      var r := Steps(p, env, Going(s), out);
      r.Aborted? || Tallied(p, env, sts, LineAt(s, line), LineAt(r.sim, line), line)
  {
    hide Steps, ActAll, Reference, Booked, Whole, Stopped, Tallied, LineAt, FirstIMark;
    out := CgInstrument(p, capacity, sts, target);
    forall env: Env, s: Sim
      ensures var r := Steps(p, env, Going(s), out);
        r.Aborted? || ((r.Left? <==> Stopped(env, sts, |sts|)) && Booked(p, s, Whole(p, env, sts, target), r.sim))
    {
      ReferenceStands(p, env, s, sts, target);
    }
    forall env: Env, s: Sim, line: nat
      ensures var r := Steps(p, env, Going(s), out);
        r.Aborted? || Tallied(p, env, sts, LineAt(s, line), LineAt(r.sim, line), line)
    {
      ReferenceStands(p, env, s, sts, target);
      var r := Steps(p, env, Going(s), out);
      if !r.Aborted? {
        BookedTally(p, env, s, sts, target, r.sim, line);
      }
    }
  }

  /** The counts of a line, before and after a block */
  ghost predicate Tallied(p: Params, env: Env, sts: seq<Stmt>, was: LineCC, now: LineCC, line: nat) {
    && now.ir.a == Grown(was.ir.a, Number(p, env, sts, |sts|, line, Ir))
    && now.dr.a == Grown(was.dr.a, Number(p, env, sts, |sts|, line, Rd))
    && now.dw.a == Grown(was.dw.a, Number(p, env, sts, |sts|, line, Wr))
    && now.bc.b == Grown(was.bc.b, Number(p, env, sts, |sts|, line, Br))
  }

  lemma BookedTally(p: Params, env: Env, s: Sim, sts: seq<Stmt>, target: Option<nat>, sim: Sim, line: nat)
    requires Booked(p, s, Whole(p, env, sts, target), sim)
    ensures Tallied(p, env, sts, LineAt(s, line), LineAt(sim, line), line)
  {
    hide Whole, Count, Number, LineAt, Grown, Machine;
    assert Counted(p, s, Whole(p, env, sts, target), sim, line);
    WholeIs(p, env, s, sts, target, line, Ir);
    WholeIs(p, env, s, sts, target, line, Rd);
    WholeIs(p, env, s, sts, target, line, Wr);
    WholeIs(p, env, s, sts, target, line, Br);
  }
}
