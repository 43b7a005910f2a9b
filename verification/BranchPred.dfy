/** The conditional branch predictor of cg_branchpred.c: a table of two-bit saturating counters
    selected by branch address and global history. */
module BranchPred {
  import opened MachineWords
  import opened CBits

  const N_HIST_BITS := 7
  const N_IADD_BITS := 7
  const N_COUNTERS := 16384

  /** The predictor as a value. */
  datatype Predictor = Predictor(shift: nat, counters: seq<nat>)

  ghost predicate Ok(p: Predictor) {
    |p.counters| == N_COUNTERS && forall i :: 0 <= i < N_COUNTERS ==> p.counters[i] <= 3
  }

  /** The table slot a branch selects; `zeroBits` low address bits are always zero on the machine. */
  function Index(shift: nat, addr: nat, zeroBits: nat): (i: nat)
    ensures i < N_COUNTERS
  {
    shift % 128 * 128 + Shr(addr, zeroBits) % 128
  }

  function Bump(c: nat, taken: bool): nat {
    if taken then (if c < 3 then c + 1 else c) else if c > 0 then c - 1 else c
  }

  function Next(p: Predictor, addr: nat, taken: bool, zeroBits: nat): (r: Predictor)
    requires |p.counters| == N_COUNTERS
    ensures |r.counters| == N_COUNTERS
  {
    var i := Index(p.shift, addr, zeroBits);
    Predictor((2 * p.shift + if taken then 1 else 0) % W64, p.counters[i := Bump(p.counters[i], taken)])
  }

  predicate Mispredicts(p: Predictor, addr: nat, taken: bool, zeroBits: nat)
    requires |p.counters| == N_COUNTERS
  {
    taken != (p.counters[Index(p.shift, addr, zeroBits)] >= 2)
  }

  lemma {:induction false} OrDisjoint(h: nat, i: nat, k: nat)
    requires i < Pow2(k)
    ensures Or(h * Pow2(k), i) == h * Pow2(k) + i
  {
    hide Or;
    if k > 0 {
      OrDisjoint(h, i / 2, k - 1);
      var p := Pow2(k - 1);
      Doubled(h, p);
      OrEven(h * p, i);
    } else {
      OrZero(h);
    }
  }

  lemma OrEven(a: nat, i: nat)
    ensures Or(2 * a, i) == i % 2 + 2 * Or(a, i / 2)
  {
  }

  const N_BTAC := 512

  /** do_ind_branch_predict on a table of last targets: the slot of a branch. */
  function TargetSlot(addr: nat, zeroBits: nat): (i: nat)
    ensures i < N_BTAC
  {
    Shr(addr, zeroBits) % 512
  }

  /** History above, address below. */
  lemma IndexBits(shift: nat, addr: nat, zeroBits: nat)
    ensures Or(And(shift, Pow2(7) - 1) * Pow2(7), And(Shr(addr, zeroBits), Pow2(7) - 1)) == Index(shift, addr, zeroBits)
  {
    assert Pow2(7) == 128;
    hide Or, Shr, Pow2, And;
    MaskIsMod(shift, 7);
    MaskIsMod(Shr(addr, zeroBits), 7);
    OrDisjoint(shift % 128, Shr(addr, zeroBits) % 128, 7);
  }

  /** The predictor before any branch */
  function Fresh(): Predictor {
    Predictor(0, seq(N_COUNTERS, _ => 0))
  }

  /** The predictor's own state, updated in place. */
  class CondPredictor {
    const zeroBits: nat
    var shiftRegister: nat
    const counters: array<nat>

    constructor (zeroBits: nat)
      ensures this.zeroBits == zeroBits && fresh(counters)
      ensures State() == Fresh() && Ok(State())
    {
      this.zeroBits := zeroBits;
      shiftRegister := 0;
      counters := new nat[N_COUNTERS](_ => 0);
      new;
      assert counters[..] == seq(N_COUNTERS, _ => 0);
    }

    ghost function State(): Predictor
      reads this, counters
    {
      Predictor(shiftRegister, counters[..])
    }

    /** do_cond_branch_predict */
    method Predict(addr: nat, takenW: nat) returns (mispredict: nat)
      requires Ok(State()) && takenW <= 1
      modifies this, counters
      ensures Ok(State()) && State() == Next(old(State()), addr, takenW > 0, zeroBits)
      ensures mispredict == if Mispredicts(old(State()), addr, takenW > 0, zeroBits) then 1 else 0
    {
      IndexBits(shiftRegister, addr, zeroBits);
      hide And, Or, Shr, Pow2, Index;
      var histMask, iaddMask := Pow2(N_HIST_BITS) - 1, Pow2(N_IADD_BITS) - 1;
      var histBits := And(shiftRegister, histMask);
      var iaddBits := And(Shr(addr, zeroBits), iaddMask);
      var indx := Or(histBits * Pow2(N_IADD_BITS), iaddBits);
      var predictedTaken := counters[indx] >= 2;
      var actuallyTaken := takenW > 0;
      var wrong := (actuallyTaken && !predictedTaken) || (!actuallyTaken && predictedTaken);
      shiftRegister := 2 * shiftRegister % W64;
      shiftRegister := shiftRegister + if actuallyTaken then 1 else 0;
      if actuallyTaken {
        if counters[indx] < 3 {
          counters[indx] := counters[indx] + 1;
        }
      } else {
        if counters[indx] > 0 {
          counters[indx] := counters[indx] - 1;
        }
      }
      assert counters[indx] <= 3;
      return if wrong then 1 else 0;
    }
  }

  // ---------------------------------------------------------------------------
  // Whole runs

  type Branch = (nat, bool)

  lemma NextOk(p: Predictor, addr: nat, taken: bool, zeroBits: nat)
    requires Ok(p)
    ensures Ok(Next(p, addr, taken, zeroBits))
  {
  }

  function Misses(p: Predictor, run: seq<Branch>, zeroBits: nat): nat
    requires |p.counters| == N_COUNTERS
    decreases run
  {
    if run == [] then 0
    else (if Mispredicts(p, run[0].0, run[0].1, zeroBits) then 1 else 0)
         + Misses(Next(p, run[0].0, run[0].1, zeroBits), run[1..], zeroBits)
  }

  /** The table slots a run selects. */
  function Used(p: Predictor, run: seq<Branch>, zeroBits: nat): set<nat>
    requires |p.counters| == N_COUNTERS
    decreases run
  {
    if run == [] then {}
    else {Index(p.shift, run[0].0, zeroBits)} + Used(Next(p, run[0].0, run[0].1, zeroBits), run[1..], zeroBits)
  }

  /** Every branch of the run goes the way `f` assigns to the slot it selects. */
  ghost predicate Follows(p: Predictor, run: seq<Branch>, zeroBits: nat, f: nat -> bool)
    requires |p.counters| == N_COUNTERS
    decreases run
  {
    run != [] ==>
      && run[0].1 == f(Index(p.shift, run[0].0, zeroBits))
      && Follows(Next(p, run[0].0, run[0].1, zeroBits), run[1..], zeroBits, f)
  }

  /** Mispredictions a counter still has in it when its branch always goes one way. */
  function Slack(c: nat, taken: bool): nat {
    if taken then (if c < 2 then 2 - c else 0) else if c >= 2 then c - 1 else 0
  }

  ghost function Potential(counters: seq<nat>, f: nat -> bool, slots: set<nat>, n: nat): nat
    requires n <= |counters|
  {
    if n == 0 then 0
    else Potential(counters, f, slots, n - 1) + if n - 1 in slots then Slack(counters[n - 1], f(n - 1)) else 0
  }

  lemma {:induction false} PotentialStep(counters: seq<nat>, f: nat -> bool, slots: set<nat>, n: nat, i: nat, c: nat)
    requires n <= |counters| && i < |counters| && i in slots
    ensures Potential(counters[i := c], f, slots, n)
      == Potential(counters, f, slots, n) + if i < n then Slack(c, f(i)) - Slack(counters[i], f(i)) else 0
  {
    if n > 0 {
      PotentialStep(counters, f, slots, n - 1, i, c);
    }
  }

  lemma {:induction false} PotentialBound(counters: seq<nat>, f: nat -> bool, slots: set<nat>, n: nat)
    requires n <= |counters| && forall i :: 0 <= i < |counters| ==> counters[i] <= 3
    ensures Potential(counters, f, slots, n) <= 2 * |set i | i in slots && i < n|
  {
    if n > 0 {
      PotentialBound(counters, f, slots, n - 1);
      var fewer, all := (set i | i in slots && i < n - 1), (set i | i in slots && i < n);
      if n - 1 in slots {
        assert all == fewer + {n - 1};
      } else {
        assert all == fewer;
      }
    }
  }

  /** Each misprediction is paid for by the slack of the slot it happens in. */
  lemma {:induction false} MissesArePaid(p: Predictor, run: seq<Branch>, zeroBits: nat, f: nat -> bool, slots: set<nat>)
    requires Ok(p) && Follows(p, run, zeroBits, f) && Used(p, run, zeroBits) <= slots
    ensures Misses(p, run, zeroBits) <= Potential(p.counters, f, slots, N_COUNTERS)
    decreases run
  {
    if run != [] {
      var (addr, taken) := run[0];
      var i := Index(p.shift, addr, zeroBits);
      NextOk(p, addr, taken, zeroBits);
      MissesArePaid(Next(p, addr, taken, zeroBits), run[1..], zeroBits, f, slots);
      PotentialStep(p.counters, f, slots, N_COUNTERS, i, Bump(p.counters[i], taken));
    }
  }

  /** A run whose outcomes depend only on the selected slot mispredicts at most twice per slot. */
  lemma TwoMissesPerSlot(p: Predictor, run: seq<Branch>, zeroBits: nat, f: nat -> bool)
    requires Ok(p) && Follows(p, run, zeroBits, f)
    ensures Misses(p, run, zeroBits) <= 2 * |Used(p, run, zeroBits)|
  {
    var slots := Used(p, run, zeroBits);
    MissesArePaid(p, run, zeroBits, f, slots);
    PotentialBound(p.counters, f, slots, N_COUNTERS);
    UsedInRange(p, run, zeroBits);
    assert slots == set i | i in slots && i < N_COUNTERS;
  }

  lemma {:induction false} UsedInRange(p: Predictor, run: seq<Branch>, zeroBits: nat)
    requires |p.counters| == N_COUNTERS
    ensures forall i | i in Used(p, run, zeroBits) :: i < N_COUNTERS
    decreases run
  {
    if run != [] {
      UsedInRange(Next(p, run[0].0, run[0].1, zeroBits), run[1..], zeroBits);
    }
  }
}
