/** What the branch predictor remembers: every prediction, told from the outcomes of the run alone. */
module BranchHistory {
  import opened MachineWords
  import opened CBits
  import opened BranchPred

  // ---------------------------------------------------------------------------
  // The rule, on a run of branches

  /** Bit j of a word */
  function Bit(x: nat, j: nat): nat {
    x / Pow2(j) % 2
  }

  /** The j-th newest outcome, 1 for taken; before the run began, the bit that moved there */
  function Outcome(shift: nat, run: seq<Branch>, j: nat): nat {
    if j < |run| then (if run[|run| - 1 - j].1 then 1 else 0) else Bit(shift, j - |run|)
  }

  /** The last seven outcomes, the newest lowest */
  function LastSeven(shift: nat, run: seq<Branch>): nat {
    Outcome(shift, run, 0) + 2 * Outcome(shift, run, 1) + 4 * Outcome(shift, run, 2) + 8 * Outcome(shift, run, 3)
    + 16 * Outcome(shift, run, 4) + 32 * Outcome(shift, run, 5) + 64 * Outcome(shift, run, 6)
  }

  /** The table slot for a branch at `addr` after a run: history above, seven address bits below */
  function Slot(shift: nat, run: seq<Branch>, addr: nat, zeroBits: nat): nat {
    128 * LastSeven(shift, run) + addr / Pow2(zeroBits) % 128
  }

  /** The outcomes of the branches of a run that selected a slot */
  function Selected(shift: nat, run: seq<Branch>, slot: nat, zeroBits: nat): seq<bool> {
    if run == [] then []
    else
      var past, b := run[..|run| - 1], run[|run| - 1];
      Selected(shift, past, slot, zeroBits) + if Slot(shift, past, b.0, zeroBits) == slot then [b.1] else []
  }

  /** One up for taken and one down for not taken, within 0..3 */
  function Walked(c: nat, outcomes: seq<bool>): int {
    if outcomes == [] then c
    else
      var d := Walked(c, outcomes[..|outcomes| - 1]) + if outcomes[|outcomes| - 1] then 1 else -1;
      if d < 0 then 0 else if d > 3 then 3 else d
  }

  /** Whether a branch after a run is predicted wrongly */
  predicate Wrong(p: Predictor, run: seq<Branch>, b: Branch, zeroBits: nat)
    requires |p.counters| == N_COUNTERS
  {
    SlotBelow(p.shift, run, b.0, zeroBits);
    var slot := Slot(p.shift, run, b.0, zeroBits);
    b.1 != (Walked(p.counters[slot], Selected(p.shift, run, slot, zeroBits)) >= 2)
  }

  function Wrongs(p: Predictor, run: seq<Branch>, zeroBits: nat): nat
    requires |p.counters| == N_COUNTERS
  {
    if run == [] then 0
    else
      var past := run[..|run| - 1];
      Wrongs(p, past, zeroBits) + if Wrong(p, past, run[|run| - 1], zeroBits) then 1 else 0
  }

  lemma SlotBelow(shift: nat, run: seq<Branch>, addr: nat, zeroBits: nat)
    ensures Slot(shift, run, addr, zeroBits) < N_COUNTERS
  {
    hide Pow2;
  }

  // ---------------------------------------------------------------------------
  // The shift register

  /** The predictor after a run */
  function After(p: Predictor, run: seq<Branch>, zeroBits: nat): (r: Predictor)
    requires |p.counters| == N_COUNTERS
    ensures |r.counters| == N_COUNTERS
  {
    if run == [] then p
    else Next(After(p, run[..|run| - 1], zeroBits), run[|run| - 1].0, run[|run| - 1].1, zeroBits)
  }

  lemma BitHalf(x: nat, j: nat)
    requires j > 0
    ensures Bit(x, j) == Bit(x / 2, j - 1)
  {
    HalfDiv(x, Pow2(j - 1));
  }

  lemma BitZero(x: nat)
    ensures Bit(x, 0) == x % 2
  {
    assert Pow2(0) == 1;
  }

  /** Cutting off bits from m upwards leaves those below. */
  lemma {:induction false} BitMod(x: nat, j: nat, m: nat)
    requires j < m
    ensures Bit(x % Pow2(m), j) == Bit(x, j)
    decreases j
  {
    HalfDiv(x, Pow2(m - 1));
    var y := x % Pow2(m);
    assert y % 2 == x % 2 && y / 2 == x / 2 % Pow2(m - 1);
    hide Bit, Pow2;
    if j == 0 {
      BitZero(x);
      BitZero(y);
    } else {
      BitHalf(x, j);
      BitHalf(y, j);
      BitMod(x / 2, j - 1, m - 1);
    }
  }

  lemma WordSize()
    ensures Pow2(63) == W64 / 2 && Pow2(64) == W64
  {
    assert Pow2(16) == 0x1_0000;
    Pow2Add(16, 16);
    Pow2Add(32, 31);
    Pow2Add(16, 15);
    assert Pow2(15) == 0x8000;
  }

  lemma HalfWord(x: nat, b: nat)
    requires b < 2
    ensures (2 * x + b) % W64 / 2 == x % (W64 / 2)
  {
    HalfDiv(2 * x + b, W64 / 2);
  }

  /** Shifting in a bit moves all others up by one. */
  lemma ShiftedBit(x: nat, b: nat, j: nat)
    requires b < 2 && j < 64
    ensures Bit((2 * x + b) % W64, j) == if j == 0 then b else Bit(x, j - 1)
  {
    var y := (2 * x + b) % W64;
    if j == 0 {
      assert Pow2(0) == 1;
    } else {
      WordSize();
      hide Pow2, Bit;
      BitHalf(y, j);
      HalfWord(x, b);
      BitMod(x, j - 1, 63);
    }
  }

  /** Every bit of the register is the outcome it should be. */
  lemma {:induction false} RegisterBits(p: Predictor, run: seq<Branch>, zeroBits: nat, j: nat)
    requires |p.counters| == N_COUNTERS && j < 64
    ensures Bit(After(p, run, zeroBits).shift, j) == Outcome(p.shift, run, j)
    decreases |run|
  {
    hide Bit;
    if run != [] {
      var past, b := run[..|run| - 1], run[|run| - 1];
      ShiftedBit(After(p, past, zeroBits).shift, if b.1 then 1 else 0, j);
      if j > 0 {
        RegisterBits(p, past, zeroBits, j - 1);
      }
    }
  }

  /** Bits j to k - 1, bit j counting 1 */
  function Weighted(x: nat, j: nat, k: nat): nat
    decreases k - j
  {
    if j >= k then 0 else Bit(x, j) + 2 * Weighted(x, j + 1, k)
  }

  lemma {:induction false} WeightedIs(x: nat, j: nat, k: nat)
    requires j <= k
    ensures Weighted(x, j, k) == Shr(x, j) % Pow2(k - j)
    decreases k - j
  {
    if j < k {
      WeightedIs(x, j + 1, k);
      ShrIsDiv(x, j);
      ShrShr(x, j, 1);
      HalfDiv(Shr(x, j), Pow2(k - j - 1));
      assert Shr(Shr(x, j), 1) == Shr(x, j) / 2;
    }
  }

  lemma LowSeven(x: nat)
    ensures x % 128 == Bit(x, 0) + 2 * Bit(x, 1) + 4 * Bit(x, 2) + 8 * Bit(x, 3) + 16 * Bit(x, 4) + 32 * Bit(x, 5)
      + 64 * Bit(x, 6)
  {
    WeightedIs(x, 0, 7);
    assert Pow2(7) == 128 && Shr(x, 0) == x;
    hide Bit, Pow2, Shr;
    assert Weighted(x, 7, 7) == 0;
    assert Weighted(x, 5, 7) == Bit(x, 5) + 2 * Bit(x, 6);
    assert Weighted(x, 3, 7) == Bit(x, 3) + 2 * Bit(x, 4) + 4 * Weighted(x, 5, 7);
    assert Weighted(x, 1, 7) == Bit(x, 1) + 2 * Bit(x, 2) + 4 * Weighted(x, 3, 7);
  }

  /** So the slot a branch selects is told from the run. */
  lemma SlotSelected(p: Predictor, run: seq<Branch>, zeroBits: nat, addr: nat)
    requires |p.counters| == N_COUNTERS
    ensures Index(After(p, run, zeroBits).shift, addr, zeroBits) == Slot(p.shift, run, addr, zeroBits)
  {
    hide Bit, After, Outcome, Shr, Pow2;
    var x := After(p, run, zeroBits).shift;
    LowSeven(x);
    RegisterBits(p, run, zeroBits, 0);
    RegisterBits(p, run, zeroBits, 1);
    RegisterBits(p, run, zeroBits, 2);
    RegisterBits(p, run, zeroBits, 3);
    RegisterBits(p, run, zeroBits, 4);
    RegisterBits(p, run, zeroBits, 5);
    RegisterBits(p, run, zeroBits, 6);
    ShrIsDiv(addr, zeroBits);
  }

  // ---------------------------------------------------------------------------
  // Counters and predictions

  /** Every counter is its start walked over exactly the outcomes that selected it. */
  lemma {:induction false} CounterWalks(p: Predictor, run: seq<Branch>, zeroBits: nat, slot: nat)
    requires Ok(p) && slot < N_COUNTERS
    ensures Ok(After(p, run, zeroBits))
    ensures After(p, run, zeroBits).counters[slot] == Walked(p.counters[slot], Selected(p.shift, run, slot, zeroBits))
    decreases |run|
  {
    hide Slot, Index;
    if run != [] {
      var past, b := run[..|run| - 1], run[|run| - 1];
      CounterWalks(p, past, zeroBits, slot);
      SlotSelected(p, past, zeroBits, b.0);
      NextOk(After(p, past, zeroBits), b.0, b.1, zeroBits);
      var was := Selected(p.shift, past, slot, zeroBits);
      assert (was + [b.1])[..|was|] == was;
      if Slot(p.shift, past, b.0, zeroBits) == slot {
        assert Selected(p.shift, run, slot, zeroBits) == was + [b.1];
      } else {
        assert Selected(p.shift, run, slot, zeroBits) == was;
      }
    }
  }

  lemma WrongIs(p: Predictor, run: seq<Branch>, b: Branch, zeroBits: nat)
    requires Ok(p)
    ensures Mispredicts(After(p, run, zeroBits), b.0, b.1, zeroBits) <==> Wrong(p, run, b, zeroBits)
  {
    hide Slot, Index, After, Selected, Walked;
    SlotSelected(p, run, zeroBits, b.0);
    SlotBelow(p.shift, run, b.0, zeroBits);
    CounterWalks(p, run, zeroBits, Slot(p.shift, run, b.0, zeroBits));
  }

  lemma {:induction false} AfterFirst(p: Predictor, run: seq<Branch>, zeroBits: nat)
    requires |p.counters| == N_COUNTERS && run != []
    ensures After(p, run, zeroBits) == After(Next(p, run[0].0, run[0].1, zeroBits), run[1..], zeroBits)
    decreases |run|
  {
    hide Next;
    if |run| > 1 {
      var past := run[..|run| - 1];
      AfterFirst(p, past, zeroBits);
      assert past[1..] == run[1..][..|run| - 2];
    } else {
      assert run[..0] == [];
    }
  }

  lemma {:induction false} MissesLast(p: Predictor, run: seq<Branch>, zeroBits: nat)
    requires |p.counters| == N_COUNTERS && run != []
    ensures var past, b := run[..|run| - 1], run[|run| - 1];
      Misses(p, run, zeroBits) ==
        Misses(p, past, zeroBits) + if Mispredicts(After(p, past, zeroBits), b.0, b.1, zeroBits) then 1 else 0
    decreases |run|
  {
    hide Next, Mispredicts;
    var past := run[..|run| - 1];
    if |run| > 1 {
      MissesLast(Next(p, run[0].0, run[0].1, zeroBits), run[1..], zeroBits);
      AfterFirst(p, past, zeroBits);
      assert past[1..] == run[1..][..|run| - 2];
    } else {
      assert past == [] && run[1..] == [];
    }
  }

  /** The mispredictions of every run are those of the rule. */
  lemma {:induction false} MissesAre(p: Predictor, run: seq<Branch>, zeroBits: nat)
    requires Ok(p)
    ensures Misses(p, run, zeroBits) == Wrongs(p, run, zeroBits)
    decreases |run|
  {
    hide Wrong, Mispredicts;
    if run != [] {
      var past := run[..|run| - 1];
      MissesAre(p, past, zeroBits);
      MissesLast(p, run, zeroBits);
      WrongIs(p, past, run[|run| - 1], zeroBits);
    }
  }

  /** A whole run through the predictor's own state */
  method PredictAll(run: seq<Branch>, zeroBits: nat) returns (misses: nat)
    ensures misses == Wrongs(Fresh(), run, zeroBits)
  {
    hide Next, Mispredicts, Wrong, Ok;
    var c := new CondPredictor(zeroBits);
    assert Ok(Fresh());
    misses := 0;
    for i := 0 to |run|
      invariant fresh(c) && fresh(c.counters) && c.zeroBits == zeroBits && Ok(c.State())
      invariant c.State() == After(Fresh(), run[..i], zeroBits) && misses == Wrongs(Fresh(), run[..i], zeroBits)
    {
      assert run[..i + 1][..i] == run[..i];
      WrongIs(Fresh(), run[..i], run[i], zeroBits);
      var m := c.Predict(run[i].0, if run[i].1 then 1 else 0);
      misses := misses + m;
    }
    assert run[..|run|] == run;
  }

  // ---------------------------------------------------------------------------
  // A loop branch

  function Taken(addr: nat, n: nat): seq<Branch> {
    seq(n, _ => (addr, true))
  }

  /** After k taken branches the history is k ones, at most seven. */
  function Ones(k: nat): nat {
    Pow2(Min(k, 7)) - 1
  }

  lemma TakenHistory(addr: nat, k: nat)
    ensures LastSeven(0, Taken(addr, k)) == Ones(k)
  {
    assert Pow2(0) == 1 && Pow2(1) == 2 && Pow2(2) == 4 && Pow2(3) == 8;
    assert Pow2(4) == 16 && Pow2(5) == 32 && Pow2(6) == 64 && Pow2(7) == 128;
    hide Pow2;
    forall j: nat
      ensures Outcome(0, Taken(addr, k), j) == if j < k then 1 else 0
    {
    }
  }

  lemma OnesDiffer(i: nat, k: nat)
    requires i < k
    ensures Ones(i) == Ones(k) <==> i >= 7
  {
    if i < 7 {
      Pow2Monotone(i, Min(k, 7));
    }
  }

  /** How often the slot of the k-th branch was selected before the i-th */
  lemma {:induction false} TakenSelected(addr: nat, i: nat, k: nat, zeroBits: nat)
    requires i <= k
    ensures var slot := Slot(0, Taken(addr, k), addr, zeroBits);
      Selected(0, Taken(addr, i), slot, zeroBits) == seq(if i > 7 then i - 7 else 0, _ => true)
  {
    if i > 0 {
      hide LastSeven, Pow2, Ones;
      TakenSelected(addr, i - 1, k, zeroBits);
      assert Taken(addr, i)[..i - 1] == Taken(addr, i - 1);
      TakenHistory(addr, i - 1);
      TakenHistory(addr, k);
      OnesDiffer(i - 1, k);
    }
  }

  lemma {:induction false} WalkedUp(n: nat)
    ensures Walked(0, seq(n, _ => true)) == Min(n, 3)
  {
    if n > 0 {
      WalkedUp(n - 1);
      assert seq(n, _ => true)[..n - 1] == seq(n - 1, _ => true);
    }
  }

  lemma {:induction false} LoopWrongs(addr: nat, n: nat, zeroBits: nat)
    ensures Wrongs(Fresh(), Taken(addr, n), zeroBits) == Min(n, 9)
  {
    if n > 0 {
      var k := n - 1;
      LoopWrongs(addr, k, zeroBits);
      assert Taken(addr, n)[..k] == Taken(addr, k) && Taken(addr, n)[k] == (addr, true);
      hide Wrong, Taken;
      LoopWrong(addr, k, zeroBits);
    }
  }

  /** The k-th time the branch is mispredicted exactly if k < 9. */
  lemma LoopWrong(addr: nat, k: nat, zeroBits: nat)
    ensures Wrong(Fresh(), Taken(addr, k), (addr, true), zeroBits) <==> k < 9
  {
    hide Slot, Selected, Walked, Taken;
    TakenSelected(addr, k, k, zeroBits);
    WalkedUp(if k > 7 then k - 7 else 0);
    SlotBelow(0, Taken(addr, k), addr, zeroBits);
  }

  /** A loop branch taken n times, starting with a new predictor, is mispredicted 9 times, or n times if that is less:
      eight histories come up for the first time, and the last of them once more before its counter reaches 2. */
  method LoopBranch(addr: nat, n: nat, zeroBits: nat) returns (misses: nat)
    ensures misses == if n < 9 then n else 9
  {
    misses := PredictAll(seq(n, _ => (addr, true)), zeroBits);
    assert Taken(addr, n) == seq(n, _ => (addr, true));
    LoopWrongs(addr, n, zeroBits);
  }
}
