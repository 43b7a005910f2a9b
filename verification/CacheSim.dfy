/** The cache simulator of cg_sim.c: sets of shifted tags in one array, references by address that may
    straddle two lines, and what a whole trace of them does. */
module CacheSim {
  import opened MachineWords
  import opened CBits
  import opened CacheSets


  // ---------------------------------------------------------------------------
  // A cache as a value: its sets, each with its tags most recently used first

  type Rows = seq<Row>

  ghost predicate Shaped(rows: Rows, assoc: nat) {
    |rows| > 0 && assoc > 0 && forall i :: 0 <= i < |rows| ==> |rows[i]| == assoc
  }

  predicate NonEmpty(rows: Rows) {
    |rows| > 0 && forall i :: 0 <= i < |rows| ==> rows[i] != []
  }

  predicate Holds(rows: Rows, b: nat)
    requires |rows| > 0
  {
    b in rows[b % |rows|]
  }

  function RefBlock(rows: Rows, b: nat): (r: Rows)
    requires NonEmpty(rows)
    ensures |r| == |rows| && NonEmpty(r) && forall i :: 0 <= i < |rows| ==> |r[i]| == |rows[i]|
  {
    rows[b % |rows| := Touch(rows[b % |rows|], b)]
  }

  function RefBlocks(rows: Rows, bs: seq<nat>): (r: Rows)
    requires NonEmpty(rows)
    ensures |r| == |rows| && NonEmpty(r) && forall i :: 0 <= i < |rows| ==> |r[i]| == |rows[i]|
  {
    if bs == [] then rows else RefBlock(RefBlocks(rows, bs[..|bs| - 1]), bs[|bs| - 1])
  }

  datatype Outcome = Hit | Miss | Panic

  /** cachesim_ref_is_miss: a reference touching two lines counts once, as a miss if either line misses. */
  function Ref(lineSize: nat, rows: Rows, a: nat, size: nat): (r: (Rows, Outcome))
    requires lineSize > 0 && NonEmpty(rows)
    ensures |r.0| == |rows| && NonEmpty(r.0) && forall i :: 0 <= i < |rows| ==> |r.0[i]| == |rows[i]|
  {
    var b1, b2 := a / lineSize, (a + size - 1) % W64 / lineSize;
    if b1 == b2 then
      (RefBlock(rows, b1), if Holds(rows, b1) then Hit else Miss)
    else if b1 + 1 == b2 then
      var once := RefBlock(rows, b1);
      (RefBlock(once, b2), if Holds(rows, b1) && Holds(once, b2) then Hit else Miss)
    else
      (rows, Panic)
  }

  /** An access of 1 to lineSize bytes that stays inside the address space touches at most two lines. */
  lemma NoPanic(lineSize: nat, rows: Rows, a: nat, size: nat)
    requires NonEmpty(rows) && 1 <= size <= lineSize && a + size <= W64
    ensures Ref(lineSize, rows, a, size).1 != Panic
  {
    var last := a + size - 1;
    assert last % W64 == last;
    var q, r := a / lineSize, a % lineSize;
    assert last == q * lineSize + (r + size - 1);
    if r + size - 1 < lineSize {
      DivUnique(last, lineSize, q, r + size - 1);
    } else {
      assert (q + 1) * lineSize == q * lineSize + lineSize;
      DivUnique(last, lineSize, q + 1, r + size - 1 - lineSize);
    }
  }

  /** Exactly one kind of reference of at most a line inside the address space panics: an empty one at the
      start of a line. */
  lemma PanicsExactly(lineSize: nat, rows: Rows, a: nat, size: nat)
    requires NonEmpty(rows) && 0 < lineSize < 0x8000_0000 && size <= lineSize && a + size <= W64
    ensures Ref(lineSize, rows, a, size).1 == Panic <==> size == 0 && a % lineSize == 0
  {
    hide RefBlock, Holds;
    if size > 0 {
      NoPanic(lineSize, rows, a, size);
    } else if a == 0 {
      LastBlock(lineSize);
    } else {
      var q, r := a / lineSize, a % lineSize;
      assert a == q * lineSize + r && (a - 1) % W64 == a - 1;
      if r > 0 {
        DivUnique(a - 1, lineSize, q, r - 1);
      } else {
        assert (q - 1) * lineSize == q * lineSize - lineSize;
        DivUnique(a - 1, lineSize, q - 1, lineSize - 1);
      }
    }
  }

  lemma LastBlock(lineSize: nat)
    requires 0 < lineSize < 0x8000_0000
    ensures (W64 - 1) / lineSize > 1
  {
    var q := (W64 - 1) / lineSize;
    assert W64 - 1 < (q + 1) * lineSize by {
      assert W64 - 1 == q * lineSize + (W64 - 1) % lineSize;
      assert (q + 1) * lineSize == q * lineSize + lineSize;
    }
  }

  /** Referencing the same place again hits and leaves the cache as it is -- which is what makes
      counting a read-modify-write as one reference harmless.  A geometry that check_cache accepts
      always has more than one line. */
  lemma RepeatHits(lineSize: nat, rows: Rows, a: nat, size: nat)
    requires lineSize > 0 && NonEmpty(rows) && (|rows| > 1 || |rows[0]| > 1)
    requires Ref(lineSize, rows, a, size).1 != Panic
    ensures var once := Ref(lineSize, rows, a, size).0; Ref(lineSize, once, a, size) == (once, Hit)
  {
    hide RefBlock, Holds;
    var b, c := a / lineSize, (a + size - 1) % W64 / lineSize;
    if b == c {
      OneAgain(rows, b);
    } else {
      TwoAgain(rows, b, c);
    }
  }

  lemma OneAgain(rows: Rows, b: nat)
    requires NonEmpty(rows)
    ensures var once := RefBlock(rows, b); RefBlock(once, b) == once && Holds(once, b)
  {
    hide Touch;
    TouchFront(rows[b % |rows|], b);
    BlockAgain(RefBlock(rows, b), b);
  }

  lemma TwoAgain(rows: Rows, b: nat, c: nat)
    requires NonEmpty(rows) && (|rows| > 1 || |rows[0]| > 1) && c == b + 1
    ensures var once := RefBlock(RefBlock(rows, b), c);
      RefBlock(RefBlock(once, b), c) == once && Holds(once, b) && Holds(RefBlock(once, b), c)
  {
    hide Touch;
    var n, once := |rows|, RefBlock(RefBlock(rows, b), c);
    TouchFront(rows[b % n], b);
    if n == 1 {
      TouchFront2(rows[0], b, c);
      TouchPair(once[0], b, c);
    } else {
      TouchFront(RefBlock(rows, b)[c % n], c);
      NextBlockMoves(b, n);
      BlockAgain(once, b);
      BlockAgain(once, c);
    }
  }

  lemma BlockAgain(rows: Rows, b: nat)
    requires NonEmpty(rows) && rows[b % |rows|][0] == b
    ensures RefBlock(rows, b) == rows && Holds(rows, b)
  {
    TouchAgain(rows[b % |rows|], b);
  }

  lemma TouchFront(row: Row, b: nat)
    requires row != []
    ensures Touch(row, b)[0] == b
  {
  }

  lemma TouchFront2(row: Row, b: nat, c: nat)
    requires |row| > 1 && b != c
    ensures Touch(Touch(row, b), c)[0] == c && Touch(Touch(row, b), c)[1] == b
  {
    hide Touch;
    TouchAt(row, b, 0);
    TouchAt(Touch(row, b), c, 0);
    TouchAt(Touch(row, b), c, 1);
  }

  lemma NextBlockMoves(b: nat, n: nat)
    requires n > 1
    ensures b % n != (b + 1) % n
  {
    var q, r := b / n, b % n;
    if r + 1 < n {
      DivUnique(b + 1, n, q, r + 1);
    } else {
      assert (q + 1) * n == q * n + n;
      DivUnique(b + 1, n, q + 1, 0);
    }
  }

  // ---------------------------------------------------------------------------
  // Whole traces: each set is an exact least-recently-used set

  /** The blocks of a trace that map to one set. */
  function OnSet(bs: seq<nat>, i: nat, sets: nat): seq<nat>
    requires sets > 0
  {
    if bs == [] then []
    else OnSet(bs[..|bs| - 1], i, sets) + if bs[|bs| - 1] % sets == i then [bs[|bs| - 1]] else []
  }

  lemma {:induction false} RowAfter(rows: Rows, bs: seq<nat>, i: nat)
    requires NonEmpty(rows) && i < |rows|
    ensures RefBlocks(rows, bs)[i] == TouchAll(rows[i], OnSet(bs, i, |rows|))
  {
    if bs != [] {
      var past, b := bs[..|bs| - 1], bs[|bs| - 1];
      RowAfter(rows, past, i);
      var before, after := OnSet(past, i, |rows|), OnSet(bs, i, |rows|);
      if b % |rows| == i {
        assert after[..|after| - 1] == before;
      } else {
        assert after == before;
      }
    }
  }

  lemma {:induction false} OnSetHas(bs: seq<nat>, b: nat, sets: nat)
    requires sets > 0
    ensures b in OnSet(bs, b % sets, sets) <==> b in bs
  {
    if bs != [] {
      var past, x := bs[..|bs| - 1], bs[|bs| - 1];
      OnSetHas(past, b, sets);
      assert bs == past + [x];
    }
  }

  function Empty(sets: nat, assoc: nat): Rows {
    seq(sets, _ => Zeros(assoc))
  }

  /** From an empty cache, on every trace: a block misses exactly when it was never referenced or at
      least `assoc` other blocks of its set were referenced since -- except the first reference to block
      0 into a set with an unused slot, which counts as a hit. */
  lemma LruExact(sets: nat, assoc: nat, bs: seq<nat>, b: nat)
    requires sets > 0 && assoc > 0
    ensures var mine := OnSet(bs, b % sets, sets);
      !Holds(RefBlocks(Empty(sets, assoc), bs), b) <==>
        TextbookMiss(mine, b, assoc) && !(b == 0 && 0 !in bs && |Elems(mine)| < assoc)
  {
    var i := b % sets;
    RowAfter(Empty(sets, assoc), bs, i);
    MissIsTextbook(OnSet(bs, i, sets), b, assoc);
    OnSetHas(bs, b, sets);
  }

  /** ... and each set holds its most recently used distinct blocks in recency order. */
  lemma SetContents(sets: nat, assoc: nat, bs: seq<nat>, i: nat)
    requires i < sets && assoc > 0
    ensures RefBlocks(Empty(sets, assoc), bs)[i] == Window(Recency(OnSet(bs, i, sets)), assoc)
  {
    RowAfter(Empty(sets, assoc), bs, i);
    SetHoldsRecent(OnSet(bs, i, sets), assoc);
  }

  // ---------------------------------------------------------------------------
  // References by address and size

  /** The blocks a reference touches; none stands for the panic. */
  function BlocksOf(lineSize: nat, a: nat, size: nat): seq<nat>
    requires lineSize > 0
  {
    var b1, b2 := a / lineSize, (a + size - 1) % W64 / lineSize;
    if b1 == b2 then [b1] else if b1 + 1 == b2 then [b1, b2] else []
  }

  lemma DivMonotone(x: nat, y: nat, d: nat)
    requires d > 0 && x <= y
    ensures x / d <= y / d
  {
    var q, r, k, t := x / d, x % d, y / d, y % d;
    assert x == q * d + r && y == k * d + t;
    if k < q {
      assert q * d == k * d + (q - k) * d;
      MulAtLeast(q - k, d);
    }
  }

  /** The last byte of an access of at most a line lies in the line of the first byte or in the next. */
  lemma LastLine(lineSize: nat, a: nat, size: nat)
    requires 1 <= size <= lineSize
    ensures a / lineSize <= (a + size - 1) / lineSize <= a / lineSize + 1
  {
    var q, r := a / lineSize, a % lineSize;
    assert a + size - 1 == q * lineSize + (r + size - 1);
    if r + size - 1 < lineSize {
      DivUnique(a + size - 1, lineSize, q, r + size - 1);
    } else {
      assert (q + 1) * lineSize == q * lineSize + lineSize;
      DivUnique(a + size - 1, lineSize, q + 1, r + size - 1 - lineSize);
    }
  }

  /** Those are the lines of its bytes, in order. */
  lemma BlocksTouched(lineSize: nat, a: nat, size: nat)
    requires 1 <= size <= lineSize && a + size <= W64
    ensures var bs := BlocksOf(lineSize, a, size);
      && (|bs| == 2 ==> bs[0] < bs[1])
      && forall b: nat :: b in bs <==> exists x :: a <= x < a + size && x / lineSize == b
  {
    var bs, last := BlocksOf(lineSize, a, size), a + size - 1;
    assert last % W64 == last;
    LastLine(lineSize, a, size);
    forall x | a <= x < a + size
      ensures x / lineSize in bs
    {
      DivMonotone(a, x, lineSize);
      DivMonotone(x, last, lineSize);
    }
    forall b: nat | b in bs
      ensures exists x :: a <= x < a + size && x / lineSize == b
    {
      if b == a / lineSize {
        assert a <= a < a + size;
      } else {
        assert a <= last < a + size;
      }
    }
  }

  /** The block trace of a trace of (address, size) references */
  function TraceOf(lineSize: nat, refs: seq<(nat, nat)>): seq<nat>
    requires lineSize > 0
  {
    if refs == [] then []
    else TraceOf(lineSize, refs[..|refs| - 1]) + BlocksOf(lineSize, refs[|refs| - 1].0, refs[|refs| - 1].1)
  }

  /** The cache after a trace of references */
  function RefAll(lineSize: nat, rows: Rows, refs: seq<(nat, nat)>): (r: Rows)
    requires lineSize > 0 && NonEmpty(rows)
    ensures |r| == |rows| && NonEmpty(r)
  {
    if refs == [] then rows
    else Ref(lineSize, RefAll(lineSize, rows, refs[..|refs| - 1]), refs[|refs| - 1].0, refs[|refs| - 1].1).0
  }

  lemma {:induction false} RefBlocksConcat(rows: Rows, x: seq<nat>, y: seq<nat>)
    requires NonEmpty(rows)
    ensures RefBlocks(rows, x + y) == RefBlocks(RefBlocks(rows, x), y)
  {
    if y == [] {
      assert x + y == x;
    } else {
      assert (x + y)[..|x + y| - 1] == x + y[..|y| - 1];
      RefBlocksConcat(rows, x, y[..|y| - 1]);
    }
  }

  lemma RefIsBlocks(lineSize: nat, rows: Rows, a: nat, size: nat)
    requires lineSize > 0 && NonEmpty(rows)
    ensures Ref(lineSize, rows, a, size).0 == RefBlocks(rows, BlocksOf(lineSize, a, size))
  {
    hide RefBlock, Holds;
    var bs := BlocksOf(lineSize, a, size);
    assert RefBlocks(rows, []) == rows;
    if |bs| == 2 {
      assert bs[..1] == [bs[0]] && [bs[0]][..0] == [];
      assert RefBlocks(rows, [bs[0]]) == RefBlock(rows, bs[0]);
    } else if |bs| == 1 {
      assert bs[..0] == [];
    }
  }

  lemma {:induction false} RefAllIsBlocks(lineSize: nat, rows: Rows, refs: seq<(nat, nat)>)
    requires lineSize > 0 && NonEmpty(rows)
    ensures RefAll(lineSize, rows, refs) == RefBlocks(rows, TraceOf(lineSize, refs))
  {
    hide Ref, RefBlock, BlocksOf;
    if refs != [] {
      var past := refs[..|refs| - 1];
      var (a, size) := refs[|refs| - 1];
      RefAllIsBlocks(lineSize, rows, past);
      RefIsBlocks(lineSize, RefAll(lineSize, rows, past), a, size);
      RefBlocksConcat(rows, TraceOf(lineSize, past), BlocksOf(lineSize, a, size));
    }
  }

  /** Whether block b misses after the blocks bs, by the textbook rule and its one exception */
  ghost predicate Missed(sets: nat, assoc: nat, bs: seq<nat>, b: nat)
    requires sets > 0
  {
    var mine := OnSet(bs, b % sets, sets);
    TextbookMiss(mine, b, assoc) && !(b == 0 && 0 !in bs && |Elems(mine)| < assoc)
  }

  /** The outcome of every reference of every trace, straddling ones included, decided by that rule on the one
      or two blocks it touches. */
  lemma RefLruExact(lineSize: nat, sets: nat, assoc: nat, refs: seq<(nat, nat)>, a: nat, size: nat)
    requires lineSize > 0 && sets > 0 && assoc > 0
    ensures var o := Ref(lineSize, RefAll(lineSize, Empty(sets, assoc), refs), a, size).1;
      var past, bs := TraceOf(lineSize, refs), BlocksOf(lineSize, a, size);
      && (o == Panic <==> bs == [])
      && (o == Miss <==>
        || (bs != [] && Missed(sets, assoc, past, bs[0]))
        || (|bs| == 2 && Missed(sets, assoc, past + [bs[0]], bs[1])))
  {
    hide RefBlock, Holds, OnSet, TextbookMiss, Elems;
    var rows := RefAll(lineSize, Empty(sets, assoc), refs);
    var past, bs := TraceOf(lineSize, refs), BlocksOf(lineSize, a, size);
    RefAllIsBlocks(lineSize, Empty(sets, assoc), refs);
    if bs != [] {
      LruExact(sets, assoc, past, bs[0]);
      var more := past + [bs[0]];
      assert more[..|more| - 1] == past;
      if |bs| == 2 {
        LruExact(sets, assoc, more, bs[1]);
      }
    }
  }

  // ---------------------------------------------------------------------------
  // Whole traces: more ways never miss more often

  /** Every set of the narrow cache is the front of the same set of the wide one. */
  ghost predicate Includes(wide: Rows, narrow: Rows) {
    && |wide| == |narrow| && NonEmpty(narrow)
    && forall i :: 0 <= i < |narrow| ==> |narrow[i]| <= |wide[i]| && narrow[i] == wide[i][..|narrow[i]|]
  }

  lemma BlockKeepsInclusion(wide: Rows, narrow: Rows, b: nat)
    requires Includes(wide, narrow) && NonEmpty(wide)
    ensures Includes(RefBlock(wide, b), RefBlock(narrow, b))
    ensures Holds(narrow, b) ==> Holds(wide, b)
  {
    var i := b % |narrow|;
    TouchPrefix(wide[i], b, |narrow[i]|);
  }

  lemma RefKeepsInclusion(lineSize: nat, wide: Rows, narrow: Rows, a: nat, size: nat)
    requires lineSize > 0 && Includes(wide, narrow) && NonEmpty(wide)
    ensures var (w, n) := (Ref(lineSize, wide, a, size), Ref(lineSize, narrow, a, size));
      Includes(w.0, n.0) && (n.1 == Hit ==> w.1 == Hit) && (n.1 == Panic <==> w.1 == Panic)
  {
    var b1 := a / lineSize;
    BlockKeepsInclusion(wide, narrow, b1);
    BlockKeepsInclusion(RefBlock(wide, b1), RefBlock(narrow, b1), b1 + 1);
  }

  /** Misses counted over a trace of (address, size) references, up to a panic if there is one. */
  function MissCount(lineSize: nat, rows: Rows, refs: seq<(nat, nat)>): nat
    requires lineSize > 0 && NonEmpty(rows)
    decreases refs
  {
    if refs == [] then 0
    else
      var (next, o) := Ref(lineSize, rows, refs[0].0, refs[0].1);
      if o == Panic then 0 else (if o == Miss then 1 else 0) + MissCount(lineSize, next, refs[1..])
  }

  lemma {:induction false} MissesNeverIncrease(lineSize: nat, wide: Rows, narrow: Rows, refs: seq<(nat, nat)>)
    requires lineSize > 0 && Includes(wide, narrow) && NonEmpty(wide)
    ensures MissCount(lineSize, wide, refs) <= MissCount(lineSize, narrow, refs)
    decreases refs
  {
    if refs != [] {
      var (a, size) := refs[0];
      RefKeepsInclusion(lineSize, wide, narrow, a, size);
      MissesNeverIncrease(lineSize, Ref(lineSize, wide, a, size).0, Ref(lineSize, narrow, a, size).0, refs[1..]);
    }
  }

  /** Mattson inclusion from empty caches: adding ways to the same sets and lines never adds misses. */
  lemma MoreWaysFewerMisses(lineSize: nat, sets: nat, assoc: nat, more: nat, refs: seq<(nat, nat)>)
    requires lineSize > 0 && sets > 0 && 0 < assoc <= more
    ensures MissCount(lineSize, Empty(sets, more), refs) <= MissCount(lineSize, Empty(sets, assoc), refs)
  {
    MissesNeverIncrease(lineSize, Empty(sets, more), Empty(sets, assoc), refs);
  }
}
