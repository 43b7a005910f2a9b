/** Callgrind's shadow call stack: contexts, calls, returns and inclusive costs (callstack.c, context.c,
    events.c, dump.c). */
module ShadowStack {
  import opened Wrappers

  datatype Fn = Fn(number: nat, skip: bool, popOnJump: bool, sepCallers: nat)
  datatype JumpKind = JkNone | JkJump | JkCall | JkReturn
  datatype Jump = Jump(kind: JumpKind, instrs: nat, retAddr: nat)

  /** A basic block; `jmps` holds its conditional side exits and, last, its normal exit. */
  datatype Block = Block(addr: nat, fn: Fn, isEntry: bool, sect: nat, obj: nat, jmps: seq<Jump>)
  type BB = b: Block | b.jmps != []
    witness Block(0, Fn(0, false, false, 0), false, 0, 0, [Jump(JkNone, 0, 0)])

  /** The innermost functions of the calling context, innermost last. */
  type Cxt = seq<Fn>

  datatype Bbcc = Bbcc(bb: BB, cxt: Cxt)
  datatype Arc = Arc(from: Bbcc, jmp: nat, to: Bbcc)

  type Cost = seq<nat>

  /** One frame.  `cxt` is None in the slot above the top of the stack unless a context has just been
      saved there. */
  datatype Entry = Entry(jcc: Option<Arc>, sp: nat, retAddr: nat, nonskipped: Option<Bbcc>,
                         cxt: Option<Cxt>, fnSp: nat, enter: Cost)

  // ---------------------------------------------------------------------------
  // Costs

  function Zero(n: nat): Cost {
    seq(n, _ => 0)
  }

  /** dst + (now - before), event by event */
  function AddDiff(dst: Cost, before: Cost, now: Cost): (r: Cost)
    requires |dst| == |before| == |now| && forall e :: 0 <= e < |now| ==> before[e] <= now[e]
    ensures |r| == |dst|
  {
    seq(|dst|, e requires 0 <= e < |dst| => dst[e] + (now[e] - before[e]))
  }

  function Plus(a: Cost, b: Cost): (r: Cost)
    requires |a| == |b|
    ensures |r| == |a|
  {
    seq(|a|, e requires 0 <= e < |a| => a[e] + b[e])
  }

  /** No frame was entered at a higher cost than the present one. */
  ghost predicate Entered(frames: seq<Entry>, now: Cost) {
    forall i :: 0 <= i < |frames| && frames[i].jcc.Some? ==>
      |frames[i].enter| == |now| && forall e :: 0 <= e < |now| ==> frames[i].enter[e] <= now[e]
  }

  function ArcCost(arcs: map<Arc, Cost>, a: Arc, n: nat): (c: Cost) {
    if a in arcs then arcs[a] else Zero(n)
  }

  /** What the active calls along an arc have cost since they were entered or last dumped. */
  ghost function Pending(frames: seq<Entry>, a: Arc, now: Cost, e: nat): nat
    requires e < |now| && Entered(frames, now)
  {
    if frames == [] then 0
    else Pending(frames[..|frames| - 1], a, now, e) +
         if frames[|frames| - 1].jcc == Some(a) then now[e] - frames[|frames| - 1].enter[e] else 0
  }

  /** How many active calls go along an arc. */
  ghost function Active(frames: seq<Entry>, a: Arc): nat {
    if frames == [] then 0 else Active(frames[..|frames| - 1], a) + if frames[|frames| - 1].jcc == Some(a) then 1 else 0
  }

  lemma {:induction false} PendingTick(frames: seq<Entry>, a: Arc, now: Cost, delta: Cost, e: nat)
    requires |now| == |delta| && e < |now| && Entered(frames, now)
    ensures Entered(frames, Plus(now, delta))
    ensures Pending(frames, a, Plus(now, delta), e) == Pending(frames, a, now, e) + Active(frames, a) * delta[e]
  {
    if frames != [] {
      PendingTick(frames[..|frames| - 1], a, now, delta, e);
    }
  }

  /** The cost side of a thread: what each arc was charged, the active frames, and the running cost. */
  datatype Books = Books(arcs: map<Arc, Cost>, frames: seq<Entry>, cost: Cost)

  ghost predicate Sound(b: Books) {
    Entered(b.frames, b.cost) && forall a :: a in b.arcs ==> |b.arcs[a]| == |b.cost|
  }

  /** Everything an arc has cost so far: what was added to it plus what its active calls still owe. */
  ghost function Inclusive(b: Books, a: Arc, e: nat): nat
    requires Sound(b) && e < |b.cost|
  {
    ArcCost(b.arcs, a, |b.cost|)[e] + Pending(b.frames, a, b.cost, e)
  }

  /** Nothing was gained or lost on any arc. */
  ghost predicate Conserved(b: Books, c: Books) {
    && Sound(b) && Sound(c) && c.cost == b.cost
    && forall a: Arc, e: nat :: e < |b.cost| ==> Inclusive(c, a, e) == Inclusive(b, a, e)
  }

  lemma ConservedTrans(b: Books, c: Books, d: Books)
    requires Conserved(b, c) && Conserved(c, d)
    ensures Conserved(b, d)
  {
    forall a: Arc, e: nat | e < |b.cost|
      ensures Inclusive(d, a, e) == Inclusive(b, a, e)
    {
      assert Inclusive(c, a, e) == Inclusive(b, a, e);
    }
  }

  lemma {:induction false} EnteredTick(frames: seq<Entry>, now: Cost, delta: Cost)
    requires |now| == |delta| && Entered(frames, now)
    ensures Entered(frames, Plus(now, delta))
  {
  }

  /** A frame entered at the present cost owes nothing yet; neither does a skipped one. */
  lemma PushConserved(b: Books, en: Entry)
    requires Sound(b) && (en.jcc.Some? ==> en.enter == b.cost)
    ensures Conserved(b, b.(frames := b.frames + [en]))
  {
    var c := b.(frames := b.frames + [en]);
    assert c.frames[..|c.frames| - 1] == b.frames;
    forall a: Arc, e: nat | e < |b.cost|
      ensures Inclusive(c, a, e) == Inclusive(b, a, e)
    {
    }
  }

  /** What one frame owes is moved to its arc. */
  function Settle(arcs: map<Arc, Cost>, en: Entry, now: Cost): map<Arc, Cost>
    requires en.jcc.Some? ==> Entered([en], now) && |ArcCost(arcs, en.jcc.value, |now|)| == |now|
  {
    if en.jcc.None? then arcs
    else
      assert [en][0] == en;
      arcs[en.jcc.value := AddDiff(ArcCost(arcs, en.jcc.value, |now|), en.enter, now)]
  }

  lemma PopConserved(b: Books)
    requires Sound(b) && b.frames != []
    ensures var en := b.frames[|b.frames| - 1];
      && (en.jcc.Some? ==> Entered([en], b.cost) && |ArcCost(b.arcs, en.jcc.value, |b.cost|)| == |b.cost|)
      && Conserved(b, Books(Settle(b.arcs, en, b.cost), b.frames[..|b.frames| - 1], b.cost))
  {
    var en := b.frames[|b.frames| - 1];
    var c := Books(Settle(b.arcs, en, b.cost), b.frames[..|b.frames| - 1], b.cost);
    forall a: Arc, e: nat | e < |b.cost|
      ensures Inclusive(c, a, e) == Inclusive(b, a, e)
    {
    }
  }

  /** Settling frame i in place: its debt goes to its arc and it is as if entered now. */
  lemma {:induction false} PendingSettled(f: seq<Entry>, i: nat, a: Arc, now: Cost, e: nat)
    requires e < |now| && Entered(f, now) && i < |f| && f[i].jcc.Some?
    ensures var g := f[i := f[i].(enter := now)];
      && Entered(g, now)
      && Pending(f, a, now, e) == Pending(g, a, now, e) + if f[i].jcc == Some(a) then now[e] - f[i].enter[e] else 0
  {
    var g := f[i := f[i].(enter := now)];
    assert Entered(g, now);
    if i == |f| - 1 {
      assert g[..|g| - 1] == f[..|f| - 1];
    } else {
      assert g[..|g| - 1] == f[..|f| - 1][i := f[i].(enter := now)];
      PendingSettled(f[..|f| - 1], i, a, now, e);
    }
  }

  lemma SettleConserved(b: Books, i: nat)
    requires Sound(b) && i < |b.frames| && b.frames[i].jcc.Some?
    ensures var en := b.frames[i];
      && Entered([en], b.cost) && |ArcCost(b.arcs, en.jcc.value, |b.cost|)| == |b.cost|
      && Conserved(b, Books(Settle(b.arcs, en, b.cost), b.frames[i := en.(enter := b.cost)], b.cost))
  {
    var en := b.frames[i];
    var c := Books(Settle(b.arcs, en, b.cost), b.frames[i := en.(enter := b.cost)], b.cost);
    assert Entered(c.frames, b.cost);
    forall a: Arc, e: nat | e < |b.cost|
      ensures Inclusive(c, a, e) == Inclusive(b, a, e)
    {
      PendingSettled(b.frames, i, a, b.cost, e);
    }
  }

  // ---------------------------------------------------------------------------
  // Stack pointers

  /** Stacks grow downwards: recorded stack pointers never increase from bottom to top. */
  ghost predicate Descending(frames: seq<Entry>) {
    forall i, j :: 0 <= i < j < |frames| ==> frames[j].sp <= frames[i].sp
  }

  /** How many frames unwind_call_stack pops. */
  function Unwound(frames: seq<Entry>, sp: nat, minpops: int): (n: nat)
    ensures n <= |frames|
  {
    if frames == [] then 0
    else
      var top := frames[|frames| - 1];
      if top.sp < sp || (top.sp == sp && minpops > 0) then 1 + Unwound(frames[..|frames| - 1], sp, minpops - 1) else 0
  }

  /** Plain unwinding removes exactly the frames below the current stack pointer. */
  lemma {:induction false} UnwoundBelow(frames: seq<Entry>, sp: nat, minpops: int)
    requires Descending(frames) && (minpops <= 0 || (frames != [] && frames[|frames| - 1].sp < sp && minpops == 1))
    ensures var n := |frames| - Unwound(frames, sp, minpops);
      && (forall i :: 0 <= i < n ==> frames[i].sp >= sp)
      && (forall i :: n <= i < |frames| ==> frames[i].sp < sp)
  {
    if frames != [] && frames[|frames| - 1].sp < sp {
      UnwoundBelow(frames[..|frames| - 1], sp, minpops - 1);
    }
  }

  /** With the stack pointer where the top frame has it, exactly the demanded number of frames goes,
      provided that many frames share that stack pointer. */
  lemma {:induction false} UnwoundEqual(frames: seq<Entry>, sp: nat, minpops: nat)
    requires Descending(frames) && minpops <= |frames|
    requires forall i :: |frames| - minpops <= i < |frames| ==> frames[i].sp == sp
    requires minpops == 0 ==> frames == [] || frames[|frames| - 1].sp >= sp
    ensures Unwound(frames, sp, minpops) == minpops
  {
    if minpops > 0 {
      assert |frames| > 1 ==> frames[|frames| - 1].sp <= frames[|frames| - 2].sp;
      UnwoundEqual(frames[..|frames| - 1], sp, minpops - 1);
    }
  }

  /** How many frames a RET to `addr` with stack pointer `sp` leaves: at least one if the stack pointer is
      above the top frame's; through the nearest frame returning to `addr` if it equals the top frame's;
      0 means that this is no return. */
  function ReturnPops(frames: seq<Entry>, sp: nat, addr: nat): (n: nat)
    requires frames != []
    ensures n <= |frames|
  {
    var top := frames[|frames| - 1];
    if sp < top.sp then 0
    else if sp > top.sp then 1
    else SamePops(frames, sp, addr)
  }

  function SamePops(frames: seq<Entry>, sp: nat, addr: nat): (n: nat)
    requires frames != [] && frames[|frames| - 1].sp == sp
    ensures n <= |frames|
  {
    var rest := frames[..|frames| - 1];
    if frames[|frames| - 1].retAddr == addr then 1
    else if rest == [] || rest[|rest| - 1].sp != sp then 0
    else
      var n := SamePops(rest, sp, addr);
      if n == 0 then 0 else n + 1
  }

  /** The nearest frame with the same stack pointer and the right return address, if there is one */
  lemma {:induction false} SamePopsMeans(frames: seq<Entry>, sp: nat, addr: nat)
    requires frames != [] && frames[|frames| - 1].sp == sp
    ensures var n := SamePops(frames, sp, addr);
      && (n > 0 ==>
        && frames[|frames| - n].retAddr == addr
        && forall i :: |frames| - n <= i < |frames| ==>
          frames[i].sp == sp && (i > |frames| - n ==> frames[i].retAddr != addr))
      && (n == 0 ==> forall i :: 0 <= i < |frames| && (forall j :: i <= j < |frames| ==> frames[j].sp == sp) ==>
        frames[i].retAddr != addr)
  {
    var rest := frames[..|frames| - 1];
    if frames[|frames| - 1].retAddr != addr && rest != [] && rest[|rest| - 1].sp == sp {
      SamePopsMeans(rest, sp, addr);
      if SamePops(frames, sp, addr) == 0 {
        forall i | 0 <= i < |frames| && forall j :: i <= j < |frames| ==> frames[j].sp == sp
          ensures frames[i].retAddr != addr
        {
          if i < |rest| {
            assert forall j :: i <= j < |rest| ==> rest[j].sp == sp;
            assert rest[i].retAddr != addr;
          }
        }
      }
    }
  }

  // ---------------------------------------------------------------------------
  // The state of a thread

  const N_CALL_STACK_INITIAL_ENTRIES := 500

  /** The context a function stack stands for: the top function and as many callers as it separates. */
  function CxtOf(fnStack: seq<Option<Fn>>): Cxt {
    if fnStack == [] || fnStack[|fnStack| - 1].None? then []
    else Callers(fnStack, fnStack[|fnStack| - 1].value.sepCallers + 1)
  }

  function Callers(fnStack: seq<Option<Fn>>, n: nat): Cxt {
    if n == 0 || fnStack == [] || fnStack[|fnStack| - 1].None? then []
    else Callers(fnStack[..|fnStack| - 1], n - 1) + [fnStack[|fnStack| - 1].value]
  }

  /** The context of a stack of functions above the marker is the top function and, going inwards out, as many of
      its callers as it separates and as there are. */
  lemma {:induction false} CallersAre(fnStack: seq<Option<Fn>>, n: nat, j: nat)
    requires fnStack != [] && fnStack[0].None? && forall i :: 0 < i < |fnStack| ==> fnStack[i].Some?
    ensures var c := Callers(fnStack, n);
      && |c| == (if n < |fnStack| then n else |fnStack| - 1)
      && (j < |c| ==> Some(c[|c| - 1 - j]) == fnStack[|fnStack| - 1 - j])
  {
    if n > 0 && |fnStack| > 1 {
      CallersAre(fnStack[..|fnStack| - 1], n - 1, if j > 0 then j - 1 else 0);
    }
  }

  lemma CxtMeans(fnStack: seq<Option<Fn>>, j: nat)
    requires |fnStack| > 1 && fnStack[0].None? && forall i :: 0 < i < |fnStack| ==> fnStack[i].Some?
    ensures var c, k := CxtOf(fnStack), fnStack[|fnStack| - 1].value.sepCallers;
      && |c| == (if k + 1 < |fnStack| then k + 1 else |fnStack| - 1)
      && (j < |c| ==> Some(c[|c| - 1 - j]) == fnStack[|fnStack| - 1 - j])
  {
    CallersAre(fnStack, fnStack[|fnStack| - 1].value.sepCallers + 1, j);
  }

  /** So the innermost function of a context is the one on top. */
  lemma CxtTop(fnStack: seq<Option<Fn>>)
    requires fnStack != [] && fnStack[|fnStack| - 1].Some?
    ensures CxtOf(fnStack) != [] && Some(CxtOf(fnStack)[|CxtOf(fnStack)| - 1]) == fnStack[|fnStack| - 1]
  {
  }

  function Depth(active: map<nat, int>, fn: Fn): int {
    if fn.number in active then active[fn.number] else 0
  }

  function Adjust(active: map<nat, int>, fn: Fn, change: int): map<nat, int> {
    active[fn.number := Depth(active, fn) + change]
  }

  /** The innermost function of a block's context. */
  function FnOf(b: Bbcc): Fn {
    if b.cxt == [] then b.bb.fn else b.cxt[|b.cxt| - 1]
  }

  datatype Settings = Settings(events: nat, skipDirectRecursion: bool)

  /** Which frames count a call of their target as a new activation. */
  predicate Counts(st: Settings, a: Arc) {
    !st.skipDirectRecursion || FnOf(a.from) != FnOf(a.to)
  }

  /** Where a thread stands apart from its frames: the function stack, the context it stands for, the block that
      entered skipped code, and how often each function is active */
  datatype Place = Place(fnStack: seq<Option<Fn>>, cxt: Option<Cxt>, nonskipped: Option<Bbcc>, active: map<nat, int>)

  /** After push_cxt */
  function InFunction(p: Place, fn: Fn): Place
    requires p.fnStack != []
  {
    var top := p.fnStack[|p.fnStack| - 1];
    if top == Some(fn) then p
    else
      var stack := p.fnStack + [Some(fn)];
      p.(fnStack := stack, cxt := Some(CxtOf(stack)), active := if top.None? then Adjust(p.active, fn, 1) else p.active)
  }

  /** After push_call_stack */
  function InCall(st: Settings, p: Place, a: Arc, skip: bool): Place {
    if skip then p.(nonskipped := if p.nonskipped.None? then Some(a.from) else p.nonskipped)
    else p.(nonskipped := None, active := if Counts(st, a) then Adjust(p.active, FnOf(a.to), 1) else p.active)
  }

  /** After pop_call_stack */
  function OutOf(st: Settings, p: Place, en: Entry): Place {
    if en.jcc.None? then p.(nonskipped := en.nonskipped)
    else Place(if en.fnSp < |p.fnStack| then p.fnStack[..en.fnSp + 1] else p.fnStack, en.cxt, en.nonskipped,
               if Counts(st, en.jcc.value) then Adjust(p.active, FnOf(en.jcc.value.to), -1) else p.active)
  }

  /** After popping the top n frames */
  function OutOfAll(st: Settings, p: Place, frames: seq<Entry>, n: nat): Place
    requires n <= |frames|
    decreases n
  {
    if n == 0 then p
    else OutOfAll(st, OutOf(st, p, frames[|frames| - 1]), frames[..|frames| - 1], n - 1)
  }

  lemma {:induction false} OutOfMore(st: Settings, p: Place, frames: seq<Entry>, n: nat)
    requires n < |frames|
    ensures OutOfAll(st, p, frames, n + 1) == OutOf(st, OutOfAll(st, p, frames, n), frames[|frames| - 1 - n])
    decreases n
  {
    if n > 0 {
      OutOfMore(st, OutOf(st, p, frames[|frames| - 1]), frames[..|frames| - 1], n - 1);
    }
  }

  /** The frame push_call_stack fills in. */
  function PushedFrame(slot: Entry, from: Bbcc, jmp: nat, to: Bbcc, spAddr: nat, skip: bool,
                       nonskipped: Option<Bbcc>, now: Cost): Entry
    requires jmp < |from.bb.jmps|
  {
    slot.(jcc := if skip then None else Some(Arc(from, jmp, to)), sp := spAddr,
          retAddr := if from.bb.jmps[jmp].kind == JkCall then from.bb.jmps[jmp].retAddr else 0,
          nonskipped := nonskipped, enter := if skip then slot.enter else now)
  }

  /** Every call frame saved a context and a place in the function stack, deeper frames a lower place. */
  ghost predicate Layered(frames: seq<Entry>, height: nat) {
    && (forall i :: 0 <= i < |frames| && frames[i].jcc.Some? ==>
         && frames[i].cxt.Some? && 0 < frames[i].fnSp < height
         && frames[i].jcc.value.jmp < |frames[i].jcc.value.from.bb.jmps|)
    && (forall i, j :: 0 <= i < j < |frames| && frames[i].jcc.Some? && frames[j].jcc.Some? ==>
      frames[i].fnSp <= frames[j].fnSp)
  }

  ghost predicate Above(frames: seq<Entry>, fnSp: nat) {
    forall i :: 0 <= i < |frames| && frames[i].jcc.Some? ==> frames[i].fnSp <= fnSp
  }

  /** The height the function stack will have once all frames are popped */
  ghost function Ground(frames: seq<Entry>, height: nat): nat {
    if frames == [] then height
    else
      var top := frames[|frames| - 1];
      Ground(frames[..|frames| - 1], if top.jcc.Some? then top.fnSp + 1 else height)
  }

  lemma GroundPop(frames: seq<Entry>, height: nat)
    requires frames != []
    ensures var top := frames[|frames| - 1];
      Ground(frames, height) == Ground(frames[..|frames| - 1], if top.jcc.Some? then top.fnSp + 1 else height)
  {
  }

  /** `count` frames are popped, `left` of the demanded pops remain, and the rest of the unwinding is still to come. */
  ghost predicate Unwinding(st: Settings, start: Place, frames: seq<Entry>, spAddr: nat, minpops: int, left: int,
                            count: nat, now: Place, rest: seq<Entry>) {
    && count <= |frames| && rest == frames[..|frames| - count]
    && Unwound(frames, spAddr, minpops) == count + Unwound(rest, spAddr, left)
    && now == OutOfAll(st, start, frames, count)
    && Ground(rest, |now.fnStack|) == Ground(frames, |start.fnStack|)
  }

  lemma UnwindingStarts(st: Settings, start: Place, frames: seq<Entry>, spAddr: nat, minpops: int)
    ensures Unwinding(st, start, frames, spAddr, minpops, minpops, 0, start, frames)
  {
    assert frames[..|frames|] == frames;
  }

  lemma UnwindingPops(st: Settings, start: Place, frames: seq<Entry>, spAddr: nat, minpops: int, left: int,
                      count: nat, now: Place, rest: seq<Entry>, next: Place)
    requires Unwinding(st, start, frames, spAddr, minpops, left, count, now, rest) && rest != []
    requires var top := rest[|rest| - 1];
      && (top.sp < spAddr || (top.sp == spAddr && left > 0))
      && next == OutOf(st, now, top) && (top.jcc.Some? ==> top.fnSp < |now.fnStack|)
    ensures Unwinding(st, start, frames, spAddr, minpops, left - 1, count + 1, next, rest[..|rest| - 1])
  {
    hide Adjust, Counts, FnOf;
    OutOfMore(st, start, frames, count);
    GroundPop(rest, |now.fnStack|);
    assert rest[..|rest| - 1] == frames[..|frames| - (count + 1)];
  }

  lemma UnwindingEnds(st: Settings, start: Place, frames: seq<Entry>, spAddr: nat, minpops: int, left: int,
                      count: nat, now: Place, rest: seq<Entry>)
    requires Unwinding(st, start, frames, spAddr, minpops, left, count, now, rest)
    requires rest == [] || !(rest[|rest| - 1].sp < spAddr || (rest[|rest| - 1].sp == spAddr && left > 0))
    ensures count == Unwound(frames, spAddr, minpops) && rest == frames[..|frames| - count]
    ensures now == OutOfAll(st, start, frames, count) && (count == 0 ==> now == start)
    ensures Ground(rest, |now.fnStack|) == Ground(frames, |start.fnStack|)
  {
  }

  lemma LayeredTaller(frames: seq<Entry>, height: nat)
    ensures Layered(frames, height) ==> Layered(frames, height + 1)
  {
  }

  lemma LayeredSame(f: seq<Entry>, g: seq<Entry>, height: nat)
    requires Layered(f, height) && |f| == |g| && forall i :: 0 <= i < |f| ==> g[i] == f[i].(enter := g[i].enter)
    ensures Layered(g, height)
  {
  }

  lemma LayeredPush(frames: seq<Entry>, en: Entry, height: nat)
    requires Layered(frames, height)
    requires en.jcc.Some? ==> Above(frames, en.fnSp) && Layered([en], height)
    ensures Layered(frames + [en], height)
  {
    assert [en][0] == en;
  }

  lemma LayeredPop(frames: seq<Entry>, height: nat)
    requires Layered(frames, height) && frames != []
    ensures var en := frames[|frames| - 1];
      && Layered(frames[..|frames| - 1], if en.jcc.Some? then en.fnSp + 1 else height)
      && (en.jcc.Some? ==> en.cxt.Some? && 0 < en.fnSp < height)
  {
  }

  /** Time passing charges each arc once for every active call along it. */
  ghost predicate Charged(b: Books, c: Books, delta: Cost) {
    && Sound(b) && Sound(c) && |b.cost| == |c.cost| == |delta|
    && forall a: Arc, e: nat :: e < |b.cost| ==>
      Inclusive(c, a, e) == Inclusive(b, a, e) + Active(b.frames, a) * delta[e]
  }

  lemma TickCharged(b: Books, delta: Cost)
    requires Sound(b) && |delta| == |b.cost|
    ensures Charged(b, b.(cost := Plus(b.cost, delta)), delta)
  {
    var c := b.(cost := Plus(b.cost, delta));
    EnteredTick(b.frames, b.cost, delta);
    forall a: Arc, e: nat | e < |b.cost|
      ensures Inclusive(c, a, e) == Inclusive(b, a, e) + Active(b.frames, a) * delta[e]
    {
      PendingTick(b.frames, a, b.cost, delta, e);
    }
  }

  lemma ConservedRefl(b: Books)
    requires Sound(b)
    ensures Conserved(b, b)
  {
  }

  lemma ConservedSound(b: Books, c: Books)
    requires Conserved(b, c)
    ensures Sound(b) && Sound(c) && b.cost == c.cost
  {
  }

  class Thread {
    const st: Settings
    var entry: seq<Entry>
    var sp: nat
    var fnStack: seq<Option<Fn>>
    var cxt: Option<Cxt>
    var nonskipped: Option<Bbcc>
    var bbcc: Option<Bbcc>
    var active: map<nat, int>
    var cost: Cost
    var arcs: map<Arc, Cost>

    /** The cost when the last dump was written. */
    var lastDump: Cost

    ghost function Where(): Place
      reads this
    {
      Place(fnStack, cxt, nonskipped, active)
    }

    ghost function View(): Books
      reads this
      requires sp <= |entry|
    {
      Books(arcs, entry[..sp], cost)
    }

    /** What holds between any two operations. */
    ghost predicate Valid()
      reads this
    {
      && sp < |entry| && |cost| == st.events && Sound(View())
      && |lastDump| == |cost| && (forall e :: 0 <= e < |cost| ==> lastDump[e] <= cost[e])
      && Layered(entry[..sp], |fnStack|)
      && fnStack != [] && fnStack[0].None? && (forall i :: 0 < i < |fnStack| ==> fnStack[i].Some?)
      && (cxt.Some? ==> |fnStack| > 1)
    }

    constructor (st: Settings)
      ensures Valid() && this.st == st && sp == 0 && fnStack == [None]
      ensures cxt == None && bbcc == None && nonskipped == None
      ensures entry[0].cxt == None && arcs == map[] && cost == Zero(st.events)
    {
      this.st := st;
      entry := seq(N_CALL_STACK_INITIAL_ENTRIES, _ => Entry(None, 0, 0, None, None, 0, []));
      sp := 0;
      fnStack := [None];
      cxt, nonskipped, bbcc := None, None, None;
      active, arcs := map[], map[];
      cost, lastDump := Zero(st.events), Zero(st.events);
    }

    /** Execution costs something, and every active call is charged for it. */
    method Tick(delta: Cost)
      requires Valid() && |delta| == st.events
      modifies this`cost
      ensures Valid() && cost == Plus(old(cost), delta)
      ensures Charged(old(View()), View(), delta)
    {
      ghost var was := View();
      TickCharged(was, delta);
      cost := Plus(cost, delta);
    }

    /** push_cxt: save the current context in the free slot, then make `fn` the current function. */
    method PushCxt(fn: Fn)
      requires sp < |entry| && fnStack != [] && entry[sp].cxt == None
      modifies this`entry, this`fnStack, this`cxt, this`active
      ensures entry == old(entry)[sp := old(entry)[sp].(cxt := old(cxt), fnSp := |old(fnStack)| - 1)]
      ensures old(fnStack)[|old(fnStack)| - 1] == Some(fn) ==>
        fnStack == old(fnStack) && cxt == old(cxt) && active == old(active)
      ensures old(fnStack)[|old(fnStack)| - 1] != Some(fn) ==>
        && fnStack == old(fnStack) + [Some(fn)] && cxt == Some(CxtOf(fnStack))
        && active == if old(fnStack)[|old(fnStack)| - 1].None? then Adjust(old(active), fn, 1) else old(active)
      ensures Where() == InFunction(old(Where()), fn)
      ensures View() == old(View())
      ensures old(Valid()) ==> Valid()
    {
      hide Sound, CxtOf, Adjust, Layered;
      var top := fnStack[|fnStack| - 1];
      ghost var frames := entry[..sp];
      LayeredTaller(frames, |fnStack|);
      entry := entry[sp := entry[sp].(cxt := cxt, fnSp := |fnStack| - 1)];
      assert entry[..sp] == frames;
      if top == Some(fn) {
        return;
      }
      if top.None? {
        active := Adjust(active, fn, 1);
      }
      fnStack := fnStack + [Some(fn)];
      cxt := Some(CxtOf(fnStack));
    }

    /** ensure_stack_size: grow by doubling.  The loop stops at size >= i, so slot i itself is only certain
        to exist when i was at most the old size, as in the one call there is. */
    method EnsureStackSize(i: nat)
      requires 0 < |entry|
      modifies this`entry
      ensures |entry| >= i && old(entry) <= entry
      ensures i <= |old(entry)| ==> i < |entry|
      ensures i < |old(entry)| ==> entry == old(entry)
    {
      if i < |entry| {
        return;
      }
      var size := 2 * |entry|;
      while i > size
        invariant size >= 2 * |entry|
      {
        size := 2 * size;
      }
      entry := entry + seq(size - |entry|, _ => Entry(None, 0, 0, None, None, 0, []));
    }

    /** push_call_stack: the call from `from` through its exit `jmp` to `to`; a skipped call has no arc. */
    method PushCall(from: Bbcc, jmp: nat, to: Bbcc, spAddr: nat, skip: bool)
      requires Valid() && jmp < |from.bb.jmps|
      requires !skip ==>
        (nonskipped.None? || nonskipped == Some(from)) && entry[sp].cxt.Some? && 0 < entry[sp].fnSp < |fnStack|
      requires !skip ==> Above(entry[..sp], entry[sp].fnSp)
      modifies this`entry, this`sp, this`nonskipped, this`active
      ensures Valid() && sp == old(sp) + 1 && entry[sp].cxt == None
      ensures entry[..sp] == old(entry[..sp]) + [entry[old(sp)]]
      ensures entry[old(sp)] == PushedFrame(old(entry)[old(sp)], from, jmp, to, spAddr, skip, old(nonskipped), cost)
      ensures nonskipped == if !skip then None else if old(nonskipped).None? then Some(from) else old(nonskipped)
      ensures active ==
        if !skip && Counts(st, Arc(from, jmp, to)) then Adjust(old(active), FnOf(to), 1) else old(active)
      ensures Where() == InCall(st, old(Where()), Arc(from, jmp, to), skip)
      ensures Conserved(old(View()), View())
    {
      hide Sound, Conserved, Above, Adjust, FnOf, Counts;
      ghost var was := View();
      ghost var slot := entry[sp];
      EnsureStackSize(sp + 1);
      assert entry[..sp] == was.frames && entry[sp] == slot;
      if !skip && Counts(st, Arc(from, jmp, to)) {
        active := Adjust(active, FnOf(to), 1);
      }
      StoreFrame(PushedFrame(entry[sp], from, jmp, to, spAddr, skip, nonskipped, cost));
      if !skip {
        nonskipped := None;
      } else if nonskipped.None? {
        nonskipped := Some(from);
      }
    }

    /** The slot at the top becomes a frame, and the next slot holds no context. */
    method StoreFrame(en: Entry)
      requires Valid() && sp + 1 < |entry|
      requires en.jcc.Some? ==> en.enter == cost && Above(entry[..sp], en.fnSp) && Layered([en], |fnStack|)
      modifies this`entry, this`sp
      ensures Valid() && sp == old(sp) + 1 && entry[sp].cxt == None
      ensures entry[..sp] == old(entry[..sp]) + [en] && entry[old(sp)] == en
      ensures Conserved(old(View()), View())
    {
      hide Sound, Conserved, Layered, Above;
      ghost var was := View();
      PushConserved(was, en);
      LayeredPush(was.frames, en, |fnStack|);
      entry := entry[sp := en];
      sp := sp + 1;
      entry := entry[sp := entry[sp].(cxt := None)];
      assert entry[..sp] == was.frames + [en];
      assert Conserved(was, View());
      ConservedSound(was, View());
    }

    /** pop_call_stack: leave the top frame, charging its arc. */
    method PopCall()
      requires Valid() && sp > 0
      modifies this`entry, this`sp, this`nonskipped, this`active, this`arcs, this`cxt, this`fnStack
      ensures Valid() && sp == old(sp) - 1 && entry[sp].cxt == None
      ensures entry[..sp] == old(entry[..sp])[..sp]
      ensures var en := old(entry)[sp];
        && nonskipped == en.nonskipped
        && (en.jcc.None? ==> active == old(active) && arcs == old(arcs) && cxt == old(cxt) && fnStack == old(fnStack))
        && (en.jcc.Some? ==>
          && en.fnSp < |old(fnStack)|
          && active == (if Counts(st, en.jcc.value) then Adjust(old(active), FnOf(en.jcc.value.to), -1)
            else old(active))
          && cxt == en.cxt && cxt.Some? && fnStack == old(fnStack)[..en.fnSp + 1])
      ensures Where() == OutOf(st, old(Where()), old(entry)[sp])
      ensures Conserved(old(View()), View())
    {
      hide Sound, Conserved, Layered, Adjust, Counts, FnOf;
      ghost var was := View();
      var lower := entry[sp - 1];
      assert lower == was.frames[|was.frames| - 1];
      PopConserved(was);
      LayeredPop(was.frames, |fnStack|);
      nonskipped := lower.nonskipped;
      arcs := Settle(arcs, lower, cost);
      if lower.jcc.Some? {
        var a := lower.jcc.value;
        if Counts(st, a) {
          active := Adjust(active, FnOf(a.to), -1);
        }
        cxt := lower.cxt;
        fnStack := fnStack[..lower.fnSp + 1];
      }
      entry := entry[sp - 1 := lower.(cxt := None)];
      sp := sp - 1;
      assert entry[..sp] == was.frames[..sp];
      assert Conserved(was, View());
      ConservedSound(was, View());
    }

    /** unwind_call_stack: pop what the stack pointer has left behind. */
    method Unwind(spAddr: nat, minpops: int) returns (count: nat)
      requires Valid() && entry[sp].cxt == None
      modifies this`entry, this`sp, this`nonskipped, this`active, this`arcs, this`cxt, this`fnStack
      ensures Valid() && entry[sp].cxt == None
      ensures count == Unwound(old(entry[..sp]), spAddr, minpops)
      ensures entry[..sp] == old(entry[..sp])[..old(sp) - count]
      ensures old(cxt).Some? ==> cxt.Some?
      ensures Ground(entry[..sp], |fnStack|) == old(Ground(entry[..sp], |fnStack|))
      ensures Where() == OutOfAll(st, old(Where()), old(entry[..sp]), count)
      ensures count == 0 ==>
        cxt == old(cxt) && fnStack == old(fnStack) && nonskipped == old(nonskipped) && active == old(active)
      ensures Conserved(old(View()), View())
    {
      hide Sound, Conserved, Layered, Ground, OutOf, OutOfAll, Unwound, Unwinding;
      ghost var was, start := View(), Where();
      count := 0;
      ConservedRefl(was);
      UnwindingStarts(st, start, was.frames, spAddr, minpops);
      var left := minpops;
      while sp > 0
        invariant Valid() && entry[sp].cxt == None && sp == old(sp) - count
        invariant Unwinding(st, start, was.frames, spAddr, minpops, left, count, Where(), entry[..sp])
        invariant old(cxt).Some? ==> cxt.Some?
        invariant Conserved(was, View())
      {
        var top := entry[sp - 1];
        if top.sp < spAddr || (top.sp == spAddr && left > 0) {
          ghost var mid, here, n := View(), Where(), count;
          PopCall();
          ConservedTrans(was, mid, View());
          UnwindingPops(st, start, was.frames, spAddr, minpops, left, n, here, mid.frames, Where());
          left := left - 1;
          count := count + 1;
        } else {
          break;
        }
      }
      UnwindingEnds(st, start, was.frames, spAddr, minpops, left, count, Where(), entry[..sp]);
    }

    /** cs_addCount: a dump charges every active call with its cost so far. */
    method Dump()
      requires Valid()
      modifies this`entry, this`arcs, this`lastDump
      ensures Valid() && entry[sp] == old(entry)[sp] && |entry| == |old(entry)| && lastDump == cost
      ensures forall i :: 0 <= i < sp ==>
        entry[i] == if old(entry)[i].jcc.None? then old(entry)[i] else old(entry)[i].(enter := cost)
      ensures Conserved(old(View()), View())
    {
      hide Sound, Conserved, Layered;
      ghost var was := View();
      ConservedRefl(was);
      var i := 0;
      while i < sp
        invariant i <= sp < |entry| == |old(entry)|
        invariant forall k :: i <= k < |entry| ==> entry[k] == old(entry)[k]
        invariant forall k :: 0 <= k < i ==>
          entry[k] == if old(entry)[k].jcc.None? then old(entry)[k] else old(entry)[k].(enter := cost)
        invariant Conserved(was, View())
      {
        var e := entry[i];
        if e.jcc.Some? {
          ghost var mid := View();
          ConservedSound(was, mid);
          assert mid.frames[i] == e;
          SettleConserved(mid, i);
          arcs := Settle(arcs, e, cost);
          entry := entry[i := e.(enter := cost)];
          assert View().frames == mid.frames[i := e.(enter := cost)];
          ConservedTrans(was, mid, View());
        }
        i := i + 1;
      }
      lastDump := cost;
      ConservedSound(was, View());
      LayeredSame(was.frames, entry[..sp], |fnStack|);
    }
  }
}
