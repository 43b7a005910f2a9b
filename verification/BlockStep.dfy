/** What happens at the start of every basic block (bbcc.c, setup_bbcc): the transition from the last block is
    classified as call, return or jump, and the shadow stack is brought in line with the stack pointer.
    One thread, no signals, functions that do not separate recursion levels. */
module BlockStep {
  import opened Wrappers
  import opened ShadowStack

  const MAX_ADDR: nat := 0xFFFF_FFFF_FFFF_FFFF

  // ---------------------------------------------------------------------------
  // Classification

  function LastKind(last: Option<Bbcc>, passed: nat): JumpKind
    requires last.Some? ==> passed < |last.value.bb.jmps|
  {
    if last.None? then JkNone else last.value.bb.jmps[passed].kind
  }

  /** A RET with frames on the stack none of which it can be leaving */
  predicate FalseReturn(frames: seq<Entry>, kind: JumpKind, spAddr: nat, addr: nat) {
    kind == JkReturn && frames != [] && ReturnPops(frames, spAddr, addr) == 0
  }

  predicate TrueReturn(frames: seq<Entry>, kind: JumpKind, spAddr: nat, addr: nat) {
    kind == JkReturn && !FalseReturn(frames, kind, spAddr, addr)
  }

  /** A jump that counts as a call: a tail call, or one into another object or section */
  predicate Converts(last: BB, bb: BB, falseReturn: bool) {
    falseReturn || bb.isEntry || last.sect != bb.sect || last.obj != bb.obj
  }

  /** Nothing to return to: no frame, or only the bottom marker below the current function */
  predicate Underflow(frames: seq<Entry>, fnStack: seq<Option<Fn>>) {
    frames == [] || (|fnStack| > 1 && fnStack[|fnStack| - 2].None?)
  }

  /** The frames that stay when a true return reaches stack pointer `spAddr`. */
  ghost predicate Returned(f: seq<Entry>, kept: seq<Entry>, spAddr: nat, addr: nat)
    requires f != []
  {
    var top := f[|f| - 1];
    && kept <= f
    // the stack pointer left the top frame: exactly the frames below it go
    && (top.sp < spAddr ==>
      && (forall i :: 0 <= i < |kept| ==> f[i].sp >= spAddr)
      && (forall i :: |kept| <= i < |f| ==> f[i].sp < spAddr))
    // the stack pointer stayed: exactly the frames through the nearest matching return address go
    && (top.sp == spAddr ==>
      && |kept| < |f| && f[|kept|].retAddr == addr
      && forall i :: |kept| <= i < |f| ==> f[i].sp == spAddr && (i > |kept| ==> f[i].retAddr != addr))
    && top.sp <= spAddr
  }

  lemma ReturnExact(f: seq<Entry>, spAddr: nat, addr: nat)
    requires Descending(f) && f != [] && ReturnPops(f, spAddr, addr) > 0
    ensures Returned(f, f[..|f| - Unwound(f, spAddr, ReturnPops(f, spAddr, addr))], spAddr, addr)
  {
    var n := ReturnPops(f, spAddr, addr);
    if spAddr > f[|f| - 1].sp {
      UnwoundBelow(f, spAddr, n);
    } else {
      SamePopsMeans(f, spAddr, addr);
      UnwoundEqual(f, spAddr, n);
    }
  }

  /** The counting loop: how many frames a RET leaves. */
  method CountReturnPops(frames: seq<Entry>, spAddr: nat, addr: nat) returns (n: nat)
    requires frames != []
    ensures n == ReturnPops(frames, spAddr, addr)
  {
    var up := |frames| - 1;
    n := 1;
    if spAddr < frames[up].sp {
      n := 0;
    } else if frames[up].sp == spAddr {
      assert frames[..up + 1] == frames;
      while true
        invariant 0 <= up < |frames| && n == |frames| - up && frames[up].sp == spAddr
        invariant SamePops(frames, spAddr, addr) ==
          (var m := SamePops(frames[..up + 1], spAddr, addr); if m == 0 then 0 else m + n - 1)
        decreases up
      {
        assert frames[..up + 1][..up] == frames[..up];
        if frames[up].retAddr == addr {
          break;
        }
        if up > 0 {
          up := up - 1;
          if frames[up].sp == spAddr {
            n := n + 1;
            continue;
          }
        }
        n := 0;
        break;
      }
    }
  }

  // ---------------------------------------------------------------------------
  // The step

  /** What holds between two blocks of a run. */
  ghost predicate Steady(t: Thread)
    reads t
  {
    && t.Valid() && t.entry[t.sp].cxt.None? && Descending(t.entry[..t.sp])
    && Ground(t.entry[..t.sp], |t.fnStack|) <= 2
    && (t.bbcc.Some? ==> t.cxt.Some?) && (t.cxt.None? ==> t.sp == 0 && |t.fnStack| == 1)
  }

  /** The instructions of the last block up to the exit taken, counted as event 0 */
  function Executed(last: Option<Bbcc>, passed: nat, events: nat): (delta: Cost)
    requires last.Some? ==> passed < |last.value.bb.jmps|
    ensures |delta| == events
  {
    seq(events, e => if e == 0 && last.Some? then last.value.bb.jmps[passed].instrs + 1 else 0)
  }

  /** A transition other than a call or true return that is taken for a call */
  predicate Emulated(f: seq<Entry>, last: Option<Bbcc>, passed: nat, bb: BB, spAddr: nat)
    requires last.Some? ==> passed < |last.value.bb.jmps|
  {
    var kind := LastKind(last, passed);
    last.Some? && kind != JkCall && Converts(last.value.bb, bb, FalseReturn(f, kind, spAddr, bb.addr))
  }

  /** The block and exit a call is made from, the stack pointer it is made at, the frames below it, and where the
      thread stands then */
  datatype Origin = Origin(frames: seq<Entry>, level: nat, from: Option<Bbcc>, jmp: nat, place: Place)

  /** A function that pops on jumps leaves its frame before an emulated call. */
  function OriginOf(st: Settings, f: seq<Entry>, p: Place, last: Option<Bbcc>, passed: nat, bb: BB, spAddr: nat): Origin
    requires last.Some? ==> passed < |last.value.bb.jmps|
  {
    if Emulated(f, last, passed, bb, spAddr) && last.value.bb.fn.popOnJump && f != [] && f[|f| - 1].jcc.Some? then
      var top := f[|f| - 1];
      Origin(f[..|f| - 1], top.sp, Some(top.jcc.value.from), top.jcc.value.jmp, OutOf(st, p, top))
    else
      Origin(f, spAddr, last, passed, p)
  }

  /** The frames after a transition that is no true return */
  ghost predicate Moved(st: Settings, o: Origin, call: bool, emulated: bool, after: seq<Entry>, where: Place,
                        to: Bbcc) {
    var n := |o.frames| - Unwound(o.frames, o.level, 0);
    // exactly the frames the stack pointer has left are gone
    && n <= |after| && after[..n] == o.frames[..n]
    && (forall i :: 0 <= i < n ==> o.frames[i].sp >= o.level)
    && (forall i :: n <= i < |o.frames| ==> o.frames[i].sp < o.level)
    // a call is pushed unless some were
    && (!(call && n == |o.frames|) ==> |after| == n)
    && (call && n == |o.frames| ==>
      && o.from.Some? && o.jmp < |o.from.value.bb.jmps| && |after| == n + 1
      && NewFrame(o, if emulated && n > 0 then o.frames[n - 1].sp else o.level, to, after[n]))
    // and the thread stands where the pops and the push lead
    && where == LandedAt(st, o, to.bb, call && n == |o.frames|, OutOfAll(st, o.place, o.frames, |o.frames| - n))
  }

  /** The frame of a call made from o at stack pointer `level` */
  ghost predicate NewFrame(o: Origin, level: nat, to: Bbcc, en: Entry)
    requires o.from.Some? && o.jmp < |o.from.value.bb.jmps|
  {
    var arc := if to.bb.fn.skip then Arc(o.from.value, o.jmp, to) else ArcFrom(o, to);
    && en.sp == level && en.nonskipped == o.place.nonskipped && en.retAddr == ReturnAddress(arc.from.bb, arc.jmp)
    && en.jcc == (if to.bb.fn.skip then None else Some(ArcFrom(o, to)))
    && (!to.bb.fn.skip ==> en.cxt == o.place.cxt && en.fnSp + 1 == |o.place.fnStack|)
  }

  /** Where a call through an exit returns to; a jump returns nowhere. */
  function ReturnAddress(bb: BB, jmp: nat): nat
    requires jmp < |bb.jmps|
  {
    if bb.jmps[jmp].kind == JkCall then bb.jmps[jmp].retAddr else 0
  }

  /** A call out of skipped code belongs to the block that entered the skipped code. */
  ghost function ArcFrom(o: Origin, to: Bbcc): (a: Arc)
    requires o.from.Some?
    ensures o.jmp < |o.from.value.bb.jmps| ==> a.jmp < |a.from.bb.jmps|
  {
    var ns := o.place.nonskipped;
    if ns.Some? then Arc(ns.value, |ns.value.bb.jmps| - 1, to) else Arc(o.from.value, o.jmp, to)
  }

  /** Where the thread stands once it has arrived: in the new function if one was called or none was known */
  ghost function LandedAt(st: Settings, o: Origin, bb: BB, push: bool, p: Place): Place
  {
    if push && o.from.Some? && bb.fn.skip && p.cxt.Some? then
      InCall(st, p, Arc(o.from.value, o.jmp, Bbcc(bb, p.cxt.value)), true)
    else if push && o.from.Some? && p.fnStack != [] && InFunction(p, bb.fn).cxt.Some? then
      var q := InFunction(p, bb.fn);
      InCall(st, q, ArcFrom(o.(place := p), Bbcc(bb, q.cxt.value)), false)
    else if p.cxt.None? && p.fnStack != [] then InFunction(p, bb.fn)
    else p
  }

  /** The charge an emulated call is given for the time since the last dump. */
  ghost predicate Backdated(b: Books, c: Books, arc: Arc, since: Cost) {
    && Sound(b) && Sound(c) && c.cost == b.cost
    && |since| == |b.cost| && (forall e :: 0 <= e < |since| ==> since[e] <= b.cost[e])
    && forall a: Arc, e: nat :: e < |b.cost| ==>
      Inclusive(c, a, e) == Inclusive(b, a, e) + if a == arc then b.cost[e] - since[e] else 0
  }

  lemma PushBackdated(b: Books, en: Entry, since: Cost)
    requires Sound(b) && en.jcc.Some? && |since| == |b.cost| && forall e :: 0 <= e < |since| ==> since[e] <= b.cost[e]
    ensures Backdated(b, b.(frames := b.frames + [en.(enter := since)]), en.jcc.value, since)
  {
    var f := en.(enter := since);
    var c := b.(frames := b.frames + [f]);
    assert c.frames[..|c.frames| - 1] == b.frames && c.frames[|b.frames|] == f;
    assert Sound(c);
    forall a: Arc, e: nat | e < |b.cost|
      ensures Inclusive(c, a, e) == Inclusive(b, a, e) + if a == en.jcc.value then b.cost[e] - since[e] else 0
    {
    }
  }

  lemma BackdatedThen(b: Books, c: Books, d: Books, arc: Arc, since: Cost)
    requires Backdated(b, c, arc, since) && Conserved(c, d)
    ensures Backdated(b, d, arc, since)
  {
    forall a: Arc, e: nat | e < |b.cost|
      ensures Inclusive(d, a, e) == Inclusive(b, a, e) + if a == arc then b.cost[e] - since[e] else 0
    {
      assert Inclusive(d, a, e) == Inclusive(c, a, e);
    }
  }

  /** Where the thread stands after an underflow: in the function returned to, on top of the marker, which is active
      once more, while the function left is active once less */
  ghost function Underflowed(st: Settings, p: Place, caller: Fn, arc: Arc): Place {
    var stack, callee := [None, Some(caller)], FnOf(arc.to);
    var active := Adjust(Adjust(p.active, caller, 1), callee, -1);
    Place(stack, Some(CxtOf(stack)), None,
          if Counts(st, arc) then Adjust(Adjust(active, callee, 1), callee, -1) else active)
  }

  /** A true return that finds a frame to leave leaves at least one. */
  lemma ReturnLeaves(f: seq<Entry>, kept: seq<Entry>, spAddr: nat, addr: nat)
    requires f != [] && Returned(f, kept, spAddr, addr)
    ensures |kept| < |f|
  {
  }

  lemma OutOfNone(st: Settings, p: Place, frames: seq<Entry>)
    ensures OutOfAll(st, p, frames, 0) == p
  {
  }

  /** handleUnderflow and the pop after it: a call from the code returned to is made up and left at once. */
  method HandleUnderflow(t: Thread, bb: BB, source: BB, seen: Option<Cxt>) returns (ghost arc: Arc)
    requires t.Valid() && t.entry[t.sp].cxt.None? && t.bbcc.Some? && t.cxt.Some? && |t.fnStack| == 2
    modifies t
    ensures t.Valid() && t.entry[t.sp].cxt.None? && t.cxt.Some?
    ensures t.entry[..t.sp] == old(t.entry[..t.sp]) && t.bbcc == old(t.bbcc) && t.nonskipped.None?
    ensures t.fnStack == [None, Some(bb.fn)] && t.cxt == Some(CxtOf(t.fnStack)) && t.lastDump == old(t.lastDump)
    ensures arc == Arc(Bbcc(source, if seen.Some? then seen.value else t.cxt.value), 0, old(t.bbcc).value)
    ensures t.Where() == Underflowed(t.st, old(t.Where()), bb.fn, arc)
    ensures Backdated(old(t.View()), t.View(), arc, t.lastDump)
  {
    hide Sound, Conserved, Backdated, CxtOf, Adjust, Counts, Layered;
    ghost var was := t.View();
    var to := t.bbcc.value;
    EmulateCaller(t, bb);
    var from := Bbcc(source, if seen.Some? then seen.value else t.cxt.value);
    t.active := Adjust(t.active, FnOf(to), -1);
    t.nonskipped := None;
    arc := Arc(from, 0, to);
    EmulateCall(t, from, to);
    ghost var mid := t.View();
    t.PopCall();
    assert t.entry[..t.sp] == was.frames;
    BackdatedThen(was, mid, t.View(), arc, t.lastDump);
  }

  /** The current function gives way to the one returned to. */
  method EmulateCaller(t: Thread, bb: BB)
    requires t.Valid() && t.entry[t.sp].cxt.None? && t.cxt.Some? && |t.fnStack| == 2
    modifies t`fnStack, t`cxt, t`entry, t`active
    ensures t.Valid() && t.entry[t.sp].cxt.None? && t.View() == old(t.View())
    ensures t.fnStack == [None, Some(bb.fn)] && t.cxt == Some(CxtOf(t.fnStack))
    ensures t.active == Adjust(old(t.active), bb.fn, 1)
  {
    hide Sound, CxtOf, Adjust;
    t.fnStack := t.fnStack[..|t.fnStack| - 1];
    t.cxt := None;
    t.PushCxt(bb.fn);
  }

  /** The call that was made up, charged since the last dump */
  method EmulateCall(t: Thread, from: Bbcc, to: Bbcc)
    requires t.Valid() && t.entry[t.sp].cxt.None? && t.cxt.Some? && |t.fnStack| == 2 && t.nonskipped.None?
    modifies t`entry, t`sp, t`nonskipped, t`active, t`fnStack, t`cxt
    ensures t.Valid() && t.sp == old(t.sp) + 1
    ensures t.entry[..t.sp] == old(t.entry[..t.sp]) + [t.entry[t.sp - 1]]
    ensures var en := t.entry[t.sp - 1];
      && en.jcc == Some(Arc(from, 0, to)) && en.nonskipped.None? && en.cxt == old(t.cxt) && en.fnSp == 1
      && en.sp == MAX_ADDR
    ensures t.fnStack[..2] == old(t.fnStack)
    ensures t.active == if Counts(t.st, Arc(from, 0, to)) then Adjust(old(t.active), FnOf(to), 1) else old(t.active)
    ensures Backdated(old(t.View()), t.View(), Arc(from, 0, to), t.lastDump)
  {
    hide Sound, Conserved, Backdated, CxtOf, Adjust, Counts, FnOf;
    ghost var was := t.View();
    t.PushCxt(FnOf(to));
    t.PushCall(from, 0, to, MAX_ADDR, false);
    var en := t.entry[t.sp - 1].(enter := t.lastDump);
    PushBackdated(was, t.entry[t.sp - 1], t.lastDump);
    Backdate(t);
    assert t.entry[..t.sp] == was.frames + [en];
  }

  method Backdate(t: Thread)
    requires t.Valid() && t.sp > 0
    modifies t`entry
    ensures t.Valid() && t.entry == old(t.entry)[t.sp - 1 := old(t.entry)[t.sp - 1].(enter := t.lastDump)]
  {
    ghost var f := t.entry[..t.sp];
    t.entry := t.entry[t.sp - 1 := t.entry[t.sp - 1].(enter := t.lastDump)];
    assert t.entry[..t.sp] == f[t.sp - 1 := t.entry[t.sp - 1]];
  }

  lemma DescendingPrefix(f: seq<Entry>, n: nat)
    requires Descending(f) && n <= |f|
    ensures Descending(f[..n])
  {
  }

  /** A new top frame at or below the old one keeps the order, and the ground. */
  lemma PushSteady(f: seq<Entry>, en: Entry, height: nat)
    requires Descending(f) && (f != [] ==> en.sp <= f[|f| - 1].sp)
    ensures Descending(f + [en])
    ensures Ground(f + [en], height) == Ground(f, if en.jcc.Some? then en.fnSp + 1 else height)
  {
    assert (f + [en])[..|f|] == f;
  }

  /** The delayed push of a call into a skipped function */
  method EnterSkipped(t: Thread, from: Bbcc, jmp: nat, bb: BB, level: nat)
    requires Steady(t) && t.cxt.Some? && jmp < |from.bb.jmps|
    requires t.sp == 0 || level <= t.entry[t.sp - 1].sp
    modifies t
    ensures Steady(t) && t.cxt.Some? && t.bbcc == Some(Bbcc(bb, t.cxt.value))
    ensures t.sp == old(t.sp) + 1 && t.entry[..t.sp] == old(t.entry[..t.sp]) + [t.entry[t.sp - 1]]
    ensures var en := t.entry[t.sp - 1];
      && en.sp == level && en.nonskipped == old(t.nonskipped) && en.jcc.None?
      && en.retAddr == ReturnAddress(from.bb, jmp)
    ensures t.Where() == InCall(t.st, old(t.Where()), Arc(from, jmp, Bbcc(bb, old(t.cxt).value)), true)
    ensures Conserved(old(t.View()), t.View())
  {
    hide Sound, Conserved, CxtOf, Adjust, Counts, FnOf, Descending, Ground, Layered;
    ghost var f := t.entry[..t.sp];
    t.PushCall(from, jmp, Bbcc(bb, t.cxt.value), level, true);
    t.bbcc := Some(Bbcc(bb, t.cxt.value));
    PushSteady(f, t.entry[t.sp - 1], |t.fnStack|);
  }

  lemma BelowTop(frames: seq<Entry>, height: nat)
    requires Layered(frames, height) && height > 0
    ensures Above(frames, height - 1)
  {
  }

  /** The delayed push of any other call: the frame is entered once the target's context is known. */
  method EnterCounted(t: Thread, from: Bbcc, jmp: nat, bb: BB, level: nat)
    requires Steady(t) && t.cxt.Some? && jmp < |from.bb.jmps| && (t.nonskipped.None? || t.nonskipped == Some(from))
    requires t.sp == 0 || level <= t.entry[t.sp - 1].sp
    modifies t
    ensures Steady(t) && t.cxt.Some? && t.bbcc == Some(Bbcc(bb, t.cxt.value))
    ensures t.sp == old(t.sp) + 1 && t.entry[..t.sp] == old(t.entry[..t.sp]) + [t.entry[t.sp - 1]]
    ensures var en := t.entry[t.sp - 1];
      && en.sp == level && en.nonskipped == old(t.nonskipped) && en.jcc == Some(Arc(from, jmp, t.bbcc.value))
      && en.cxt == old(t.cxt) && en.fnSp + 1 == |old(t.fnStack)| && en.retAddr == ReturnAddress(from.bb, jmp)
    ensures old(t.fnStack) != [] && InFunction(old(t.Where()), bb.fn).cxt == t.cxt
    ensures t.Where() == InCall(t.st, InFunction(old(t.Where()), bb.fn), Arc(from, jmp, t.bbcc.value), false)
    ensures Conserved(old(t.View()), t.View())
  {
    hide Sound, Conserved, CxtOf, Adjust, Counts, FnOf, Descending, Ground, Layered, Above, InFunction, InCall;
    ghost var f, height := t.entry[..t.sp], |t.fnStack|;
    BelowTop(f, height);
    t.PushCxt(bb.fn);
    t.PushCall(from, jmp, Bbcc(bb, t.cxt.value), level, false);
    t.bbcc := Some(Bbcc(bb, t.cxt.value));
    PushSteady(f, t.entry[t.sp - 1], |t.fnStack|);
  }

  /** Arriving at the block, with or without a call to push. */
  method Land(t: Thread, bb: BB, o: Origin, push: bool, emulated: bool)
    requires Steady(t)
    requires push ==> t.cxt.Some? && o.from.Some? && o.jmp < |o.from.value.bb.jmps| && o.place == t.Where()
    requires push && t.sp > 0 ==> o.level <= t.entry[t.sp - 1].sp
    modifies t
    ensures Steady(t) && t.cxt.Some? && t.bbcc == Some(Bbcc(bb, t.cxt.value))
    ensures t.sp == old(t.sp) + (if push then 1 else 0) && t.entry[..t.sp][..old(t.sp)] == old(t.entry[..t.sp])
    ensures push ==>
      var level := if emulated && old(t.sp) > 0 then old(t.entry)[old(t.sp) - 1].sp else o.level;
      NewFrame(o, level, t.bbcc.value, t.entry[t.sp - 1])
    ensures t.Where() == LandedAt(t.st, o, bb, push, old(t.Where()))
    ensures Conserved(old(t.View()), t.View())
  {
    hide Sound, Conserved, CxtOf, Adjust, Counts, FnOf, Descending, Layered, Entered;
    if push {
      var level := if emulated && t.sp > 0 then t.entry[t.sp - 1].sp else o.level;
      if bb.fn.skip {
        EnterSkipped(t, o.from.value, o.jmp, bb, level);
      } else if t.nonskipped.Some? {
        EnterCounted(t, t.nonskipped.value, |t.nonskipped.value.bb.jmps| - 1, bb, level);
      } else {
        EnterCounted(t, o.from.value, o.jmp, bb, level);
      }
    } else {
      ConservedRefl(t.View());
      if t.cxt.None? {
        t.PushCxt(bb.fn);
      }
      t.bbcc := Some(Bbcc(bb, t.cxt.value));
    }
  }

  lemma CallHasOrigin(st: Settings, f: seq<Entry>, p: Place, last: Option<Bbcc>, passed: nat, bb: BB, spAddr: nat)
    requires last.Some? ==> passed < |last.value.bb.jmps|
    requires Emulated(f, last, passed, bb, spAddr) || LastKind(last, passed) == JkCall
    ensures last.Some? && OriginOf(st, f, p, last, passed, bb, spAddr).from.Some?
  {
  }

  lemma Landed(st: Settings, o: Origin, call: bool, emulated: bool, kept: nat, after: seq<Entry>, where: Place,
               to: Bbcc)
    requires Descending(o.frames) && kept == |o.frames| - Unwound(o.frames, o.level, 0)
    requires kept <= |after| && after[..kept] == o.frames[..kept]
    requires |after| == kept + if call && kept == |o.frames| then 1 else 0
    requires call && kept == |o.frames| ==>
      && o.from.Some? && o.jmp < |o.from.value.bb.jmps|
      && NewFrame(o, if emulated && kept > 0 then o.frames[kept - 1].sp else o.level, to, after[kept])
    requires var left := OutOfAll(st, o.place, o.frames, |o.frames| - kept);
      where == LandedAt(st, o, to.bb, call && kept == |o.frames|, left)
    ensures Moved(st, o, call, emulated, after, where, to)
  {
    UnwoundBelow(o.frames, o.level, 0);
  }

  /** Everything but true returns */
  method Transfer(t: Thread, bb: BB, spAddr: nat, passed: nat)
    requires Steady(t) && (t.bbcc.Some? ==> passed < |t.bbcc.value.bb.jmps|)
    requires !TrueReturn(t.entry[..t.sp], LastKind(t.bbcc, passed), spAddr, bb.addr)
    modifies t
    ensures Steady(t) && t.cxt.Some? && t.bbcc == Some(Bbcc(bb, t.cxt.value))
    ensures
      var f, last := old(t.entry[..t.sp]), old(t.bbcc);
      var emulated := Emulated(f, last, passed, bb, spAddr);
      var o, call := OriginOf(t.st, f, old(t.Where()), last, passed, bb, spAddr), LastKind(last, passed) == JkCall;
      Moved(t.st, o, emulated || call, emulated, t.entry[..t.sp], t.Where(), t.bbcc.value)
    ensures Conserved(old(t.View()), t.View())
  {
    hide Sound, Conserved, CxtOf, Adjust, Counts, FnOf, Layered, OriginOf, Emulated, Descending, Unwound, LastKind;
    hide TrueReturn, NewFrame, LandedAt, OutOfAll, Ground, Moved;
    var last := t.bbcc;
    var emulated := Emulated(t.entry[..t.sp], last, passed, bb, spAddr);
    var call := emulated || LastKind(last, passed) == JkCall;
    ghost var b := t.View();
    if call {
      CallHasOrigin(t.st, b.frames, t.Where(), last, passed, bb, spAddr);
    }
    var o := LeaveOnJump(t, bb, spAddr, passed);
    ghost var m := t.View();
    UnwoundBelow(o.frames, o.level, 0);
    var popped := t.Unwind(o.level, 0);
    DescendingPrefix(o.frames, t.sp);
    ConservedTrans(b, m, t.View());
    m := t.View();
    assert t.sp > 0 ==> t.entry[t.sp - 1] == o.frames[t.sp - 1];
    ghost var kept := t.sp;
    OutOfNone(t.st, o.place, o.frames);
    Land(t, bb, o, call && popped == 0, emulated);
    Landed(t.st, o, call, emulated, kept, t.entry[..t.sp], t.Where(), t.bbcc.value);
    ConservedTrans(b, m, t.View());
  }

  /** Pop on jump, if that applies */
  method LeaveOnJump(t: Thread, bb: BB, spAddr: nat, passed: nat) returns (o: Origin)
    requires Steady(t) && (t.bbcc.Some? ==> passed < |t.bbcc.value.bb.jmps|)
    modifies t
    ensures Steady(t) && t.bbcc == old(t.bbcc) && (old(t.cxt).Some? ==> t.cxt.Some?)
    ensures o == OriginOf(t.st, old(t.entry[..t.sp]), old(t.Where()), t.bbcc, passed, bb, spAddr)
    ensures o.frames == t.entry[..t.sp] && o.place == t.Where()
    ensures o.from.Some? ==> o.jmp < |o.from.value.bb.jmps|
    ensures Conserved(old(t.View()), t.View())
  {
    hide Sound, Conserved, CxtOf, Adjust, Counts, FnOf;
    var last := t.bbcc;
    o := Origin(t.entry[..t.sp], spAddr, last, passed, Place(t.fnStack, t.cxt, t.nonskipped, t.active));
    ConservedRefl(t.View());
    var emulated := Emulated(t.entry[..t.sp], last, passed, bb, spAddr);
    if emulated && last.value.bb.fn.popOnJump && t.sp > 0 && t.entry[t.sp - 1].jcc.Some? {
      var top := t.entry[t.sp - 1];
      DescendingPrefix(t.entry[..t.sp], t.sp - 1);
      t.PopCall();
      var place := Place(t.fnStack, t.cxt, t.nonskipped, t.active);
      o := Origin(t.entry[..t.sp], top.sp, Some(top.jcc.value.from), top.jcc.value.jmp, place);
    }
  }

  /** setup_bbcc.  `source` is the block found just before the one returned to and `seen` the context it already
      has, both used on underflow only; `charged` are the books after the last block's instructions. */
  method SetupBbcc(t: Thread, bb: BB, spAddr: nat, passed: nat, source: BB, seen: Option<Cxt>)
    returns (ghost charged: Books, ghost arc: Option<Arc>)
    requires Steady(t) && (t.bbcc.Some? ==> passed < |t.bbcc.value.bb.jmps|)
    modifies t
    ensures Steady(t) && t.cxt.Some? && t.bbcc == Some(Bbcc(bb, t.cxt.value))
    ensures
      var f, last, kind := old(t.entry[..t.sp]), old(t.bbcc), LastKind(old(t.bbcc), passed);
      if !TrueReturn(f, kind, spAddr, bb.addr) then
        var emulated := Emulated(f, last, passed, bb, spAddr);
        Moved(t.st, OriginOf(t.st, f, old(t.Where()), last, passed, bb, spAddr), emulated || kind == JkCall, emulated,
          t.entry[..t.sp], t.Where(), t.bbcc.value)
      else if Underflow(f, old(t.fnStack)) then
        && t.entry[..t.sp] == f && last.Some? && arc.Some?
        && t.Where() == Underflowed(t.st, old(t.Where()), bb.fn, arc.value)
      else
        && Returned(f, t.entry[..t.sp], spAddr, bb.addr)
        && t.Where() == OutOfAll(t.st, old(t.Where()), f, |f| - t.sp)
    ensures
      TrueReturn(old(t.entry[..t.sp]), LastKind(old(t.bbcc), passed), spAddr, bb.addr) ==>
        (t.sp < old(t.sp) <==> !Underflow(old(t.entry[..t.sp]), old(t.fnStack)))
    // which transitions are calls, where no frame is left behind
    ensures old(t.bbcc).Some? && StaysAbove(old(t.entry[..t.sp]), spAddr) && !old(t.bbcc).value.bb.fn.popOnJump ==>
      var f, last, kind := old(t.entry[..t.sp]), old(t.bbcc).value.bb, old(t.bbcc).value.bb.jmps[passed].kind;
      var entering := bb.isEntry || last.sect != bb.sect || last.obj != bb.obj;
      var level := if f == [] then spAddr else f[|f| - 1].sp;
      && (kind == JkCall ==> Called(t, old(t.sp), old(t.Where()), old(t.bbcc).value, passed, bb, spAddr))
      && (kind == JkJump || kind == JkNone ==>
        if entering then Called(t, old(t.sp), old(t.Where()), old(t.bbcc).value, passed, bb, level)
        else t.sp == old(t.sp) && t.fnStack == old(t.fnStack) && t.active == old(t.active))
      && (kind == JkReturn && f != [] && NoneReturnsTo(f, spAddr, bb.addr) ==>
        Called(t, old(t.sp), old(t.Where()), old(t.bbcc).value, passed, bb, level))
    // and where the function pops on jumps
    ensures old(t.bbcc).Some? ==>
      var f, last := old(t.entry[..t.sp]), old(t.bbcc).value.bb;
      LeavesByJump(f, last, bb, last.jmps[passed].kind) ==>
        && t.sp == old(t.sp) && t.entry[..t.sp - 1] == f[..|f| - 1]
        && Redirected(f[|f| - 1], t.entry[t.sp - 1], bb)
    ensures old(t.bbcc).None? && old(t.cxt).None? ==> t.sp == old(t.sp) && t.fnStack == old(t.fnStack) + [Some(bb.fn)]
    ensures Charged(old(t.View()), charged, Executed(old(t.bbcc), passed, t.st.events))
    ensures t.cost == Plus(old(t.cost), Executed(old(t.bbcc), passed, t.st.events))
    ensures arc.Some? <==>
      && TrueReturn(old(t.entry[..t.sp]), LastKind(old(t.bbcc), passed), spAddr, bb.addr)
      && Underflow(old(t.entry[..t.sp]), old(t.fnStack))
    ensures if arc.Some? then Backdated(charged, t.View(), arc.value, t.lastDump) else Conserved(charged, t.View())
  {
    hide Sound, Conserved, Charged, Backdated, CxtOf, Adjust, Counts, FnOf, Layered, Moved, OriginOf, Emulated;
    hide Descending, Ground, Returned, ReturnPops, Executed, OutOfAll, Underflowed;
    t.Tick(Executed(t.bbcc, passed, t.st.events));
    charged, arc := t.View(), None;
    var pops := 1;
    if LastKind(t.bbcc, passed) == JkReturn && t.sp > 0 {
      pops := CountReturnPops(t.entry[..t.sp], spAddr, bb.addr);
    }
    ghost var f, last, p := t.entry[..t.sp], t.bbcc, t.Where();
    StepParts(t);
    FalseReturnIs(f, LastKind(last, passed), spAddr, bb.addr);
    if LastKind(t.bbcc, passed) == JkReturn && pops > 0 {
      arc := GoBack(t, bb, spAddr, pops, source, seen);
      SameCost(charged, t.View());
    } else {
      Transfer(t, bb, spAddr, passed);
      SameCost(charged, t.View());
      PlainStep(t.st, f, p, last, passed, bb, spAddr, t.entry[..t.sp], t.Where(), t.bbcc.value);
    }
  }

  lemma SameCost(b: Books, c: Books)
    ensures Conserved(b, c) || (exists arc, since :: Backdated(b, c, arc, since)) ==> c.cost == b.cost
  {
  }

  /** No recorded stack pointer is below the present one. */
  ghost predicate StaysAbove(f: seq<Entry>, spAddr: nat) {
    forall i :: 0 <= i < |f| ==> f[i].sp >= spAddr
  }

  /** No frame at this stack pointer returns to this address. */
  ghost predicate NoneReturnsTo(f: seq<Entry>, spAddr: nat, addr: nat) {
    forall i :: 0 <= i < |f| ==> f[i].sp != spAddr || f[i].retAddr != addr
  }

  /** A frame has been added, recorded at this stack pointer, and unless its function is skipped that function is on
      top and active once more. */
  ghost predicate Called(t: Thread, sp: nat, was: Place, last: Bbcc, passed: nat, bb: BB, level: nat)
    reads t
  {
    && t.sp == sp + 1 && t.sp <= |t.entry| && t.bbcc.Some? && t.entry[sp].sp == level
    && CallArc(was.nonskipped, last, passed, t.bbcc.value, t.entry[sp].jcc, t.nonskipped)
    && (if bb.fn.skip then t.fnStack == was.fnStack && t.active == was.active
        else |t.fnStack| > 0 && t.fnStack[|t.fnStack| - 1] == Some(bb.fn) && was.fnStack <= t.fnStack)
    && (!bb.fn.skip && InStep(was) ==> OnceMore(t.st, was.active, t.active, FnOf(last), bb.fn))
  }

  /** The arc of a call: none into skipped code, which remembers the block that entered it; out of it, from the last
      exit of that block */
  ghost predicate CallArc(was: Option<Bbcc>, last: Bbcc, passed: nat, to: Bbcc, jcc: Option<Arc>, now: Option<Bbcc>) {
    if to.bb.fn.skip then jcc.None? && now == Some(if was.Some? then was.value else last)
    else if was.Some? then now.None? && jcc == Some(Arc(was.value, |was.value.bb.jmps| - 1, to))
    else now.None? && jcc == Some(Arc(last, passed, to))
  }

  /** The context is that of the function stack, and no skipped code is being run. */
  ghost predicate InStep(p: Place) {
    p.nonskipped.None? && p.fnStack != [] && p.fnStack[|p.fnStack| - 1].Some? && p.cxt == Some(CxtOf(p.fnStack))
  }

  lemma StepParts(t: Thread)
    requires Steady(t)
    ensures Descending(t.entry[..t.sp]) && t.fnStack != [] && (t.bbcc.Some? ==> t.cxt.Some?)
    ensures t.cxt.None? ==> t.sp == 0
  {
  }

  /** A RET that leaves no frame is none. */
  lemma FalseReturnIs(f: seq<Entry>, kind: JumpKind, spAddr: nat, addr: nat)
    requires Descending(f)
    ensures kind == JkReturn && f != [] && StaysAbove(f, spAddr) ==>
      (FalseReturn(f, kind, spAddr, addr) <==> NoneReturnsTo(f, spAddr, addr))
  {
    if kind == JkReturn && f != [] && StaysAbove(f, spAddr) && f[|f| - 1].sp == spAddr {
      SamePopsMeans(f, spAddr, addr);
      if SamePops(f, spAddr, addr) == 0 {
        forall i | 0 <= i < |f| && f[i].sp == spAddr
          ensures f[i].retAddr != addr
        {
          assert forall j :: i <= j < |f| ==> f[j].sp == spAddr;
        }
      }
    }
  }

  /** What a step other than a true return does, told from the blocks alone */
  lemma PlainStep(st: Settings, f: seq<Entry>, p: Place, last: Option<Bbcc>, passed: nat, bb: BB, spAddr: nat,
                  after: seq<Entry>, where: Place, to: Bbcc)
    requires last.Some? ==> passed < |last.value.bb.jmps|
    requires p.fnStack != [] && (last.Some? ==> p.cxt.Some?) && (p.cxt.None? ==> f == []) && to.bb == bb
    requires var emulated := Emulated(f, last, passed, bb, spAddr);
      var o, call := OriginOf(st, f, p, last, passed, bb, spAddr), LastKind(last, passed) == JkCall;
      Moved(st, o, emulated || call, emulated, after, where, to)
    ensures last.None? && p.cxt.None? && p.fnStack[|p.fnStack| - 1].None? ==>
      after == f && where.fnStack == p.fnStack + [Some(bb.fn)]
    ensures last.Some? && LeavesByJump(f, last.value.bb, bb, LastKind(last, passed)) && Descending(f) ==>
      && |after| == |f| && after[..|f| - 1] == f[..|f| - 1]
      && Redirected(f[|f| - 1], after[|f| - 1], bb)
    ensures last.Some? && StaysAbove(f, spAddr) && !last.value.bb.fn.popOnJump ==>
      var b, kind := last.value.bb, LastKind(last, passed);
      var entering := bb.isEntry || b.sect != bb.sect || b.obj != bb.obj;
      var called := kind == JkCall || FalseReturn(f, kind, spAddr, bb.addr) || entering;
      && |after| == |f| + (if called then 1 else 0)
      && (called ==> after[|f|].sp == if kind == JkCall || f == [] then spAddr else f[|f| - 1].sp)
      && (called ==> CallArc(p.nonskipped, last.value, passed, to, after[|f|].jcc, where.nonskipped))
      && (if !called || bb.fn.skip then where.fnStack == p.fnStack && where.active == p.active
          else |where.fnStack| > 0 && where.fnStack[|where.fnStack| - 1] == Some(bb.fn) && p.fnStack <= where.fnStack)
      && (called && !bb.fn.skip && InStep(p) ==> OnceMore(st, p.active, where.active, FnOf(last.value), bb.fn))
  {
    hide CxtOf, Adjust, Counts, FnOf, FalseReturn, OutOf, OnceMore;
    if last.Some? && StaysAbove(f, spAddr) && !last.value.bb.fn.popOnJump {
      NoneUnwound(f, spAddr);
      OutOfNone(st, p, f);
      if p.fnStack[|p.fnStack| - 1].Some? && p.cxt == Some(CxtOf(p.fnStack)) {
        CallCounts(st, p, Arc(last.value, passed, Bbcc(bb, CxtOf(InFunction(p, bb.fn).fnStack))), bb.fn);
      }
    }
    if last.Some? && LeavesByJump(f, last.value.bb, bb, LastKind(last, passed)) && Descending(f) {
      RedirectedStep(st, f, p, last, passed, bb, spAddr, after, where, to);
    }
  }

  /** The function called is active once more, unless it calls itself and such calls are not to count. */
  ghost predicate OnceMore(st: Settings, was: map<nat, int>, now: map<nat, int>, caller: Fn, callee: Fn) {
    var more := if st.skipDirectRecursion && caller == callee then 0 else 1;
    forall fn: Fn :: Depth(now, fn) == Depth(was, fn) + if fn.number == callee.number then more else 0
  }

  lemma CallCounts(st: Settings, p: Place, a: Arc, fn: Fn)
    requires p.fnStack != [] && p.fnStack[|p.fnStack| - 1].Some? && p.cxt == Some(CxtOf(p.fnStack))
    requires a.to.cxt == CxtOf(InFunction(p, fn).fnStack)
    ensures InFunction(p, fn).cxt == Some(a.to.cxt)
    ensures OnceMore(st, p.active, InCall(st, InFunction(p, fn), a, false).active, FnOf(a.from), fn)
  {
    CxtTop(InFunction(p, fn).fnStack);
    hide CxtOf;
  }

  /** A function that pops on jumps jumps out of its frame. */
  ghost predicate LeavesByJump(f: seq<Entry>, last: BB, bb: BB, kind: JumpKind) {
    && last.fn.popOnJump && f != [] && f[|f| - 1].jcc.Some? && (kind == JkJump || kind == JkNone)
    && (bb.isEntry || last.sect != bb.sect || last.obj != bb.obj)
  }

  /** The caller's call now leads to bb. */
  ghost predicate Redirected(was: Entry, en: Entry, bb: BB) {
    was.jcc.Some? && was.nonskipped.None? && !bb.fn.skip ==>
      && en.jcc.Some? && en.jcc.value.from == was.jcc.value.from && en.jcc.value.jmp == was.jcc.value.jmp
      && en.jcc.value.to.bb == bb
  }

  lemma RedirectedStep(st: Settings, f: seq<Entry>, p: Place, last: Option<Bbcc>, passed: nat, bb: BB, spAddr: nat,
                       after: seq<Entry>, where: Place, to: Bbcc)
    requires last.Some? && passed < |last.value.bb.jmps| && to.bb == bb && Descending(f)
    requires LeavesByJump(f, last.value.bb, bb, LastKind(last, passed))
    requires Moved(st, OriginOf(st, f, p, last, passed, bb, spAddr), true, true, after, where, to)
    ensures |after| == |f| && after[..|f| - 1] == f[..|f| - 1] && Redirected(f[|f| - 1], after[|f| - 1], bb)
  {
    hide CxtOf, Adjust, Counts, FnOf, FalseReturn, LandedAt, OutOfAll;
    var g := f[..|f| - 1];
    NoneUnwound(g, f[|f| - 1].sp);
    assert OriginOf(st, f, p, last, passed, bb, spAddr).frames == g;
  }

  lemma NoneUnwound(f: seq<Entry>, spAddr: nat)
    requires StaysAbove(f, spAddr)
    ensures Unwound(f, spAddr, 0) == 0
  {
  }

  /** A true return: underflow, or the frames it leaves are popped. */
  method GoBack(t: Thread, bb: BB, spAddr: nat, pops: nat, source: BB, seen: Option<Cxt>)
    returns (ghost arc: Option<Arc>)
    requires Steady(t) && t.bbcc.Some? && pops > 0
    requires t.sp > 0 ==> pops == ReturnPops(t.entry[..t.sp], spAddr, bb.addr)
    modifies t
    ensures Steady(t) && t.cxt.Some? && t.bbcc == Some(Bbcc(bb, t.cxt.value))
    ensures
      var f := old(t.entry[..t.sp]);
      if Underflow(f, old(t.fnStack)) then
        && t.entry[..t.sp] == f && arc.Some? && t.Where() == Underflowed(t.st, old(t.Where()), bb.fn, arc.value)
        && Backdated(old(t.View()), t.View(), arc.value, t.lastDump)
      else
        && Returned(f, t.entry[..t.sp], spAddr, bb.addr) && t.sp < old(t.sp) && arc.None?
        && t.Where() == OutOfAll(t.st, old(t.Where()), f, |f| - t.sp)
        && Conserved(old(t.View()), t.View())
  {
    hide Sound, Conserved, Backdated, CxtOf, Adjust, Counts, FnOf, Layered, Descending, Returned, ReturnPops, Unwound;
    hide OutOfAll, Underflowed;
    ghost var f := t.entry[..t.sp];
    if Underflow(t.entry[..t.sp], t.fnStack) {
      ghost var a := HandleUnderflow(t, bb, source, seen);
      arc := Some(a);
    } else {
      ReturnExact(f, spAddr, bb.addr);
      var popped := t.Unwind(spAddr, pops);
      DescendingPrefix(f, t.sp);
      ReturnLeaves(f, t.entry[..t.sp], spAddr, bb.addr);
      arc := None;
    }
    t.bbcc := Some(Bbcc(bb, t.cxt.value));
  }

  /** One block reached: the exit of the previous block that was taken, and the stack pointer */
  datatype Reached = Reached(bb: BB, spAddr: nat, passed: nat, source: BB, seen: Option<Cxt>)

  /** The instructions a run has executed: of every block but the last those up to the exit taken */
  ghost function Instructions(trace: seq<Reached>): nat
    requires forall i :: 0 < i < |trace| ==> trace[i].passed < |trace[i - 1].bb.jmps|
  {
    var n := |trace|;
    if n < 2 then 0
    else Instructions(trace[..n - 1]) + trace[n - 2].bb.jmps[trace[n - 1].passed].instrs + 1
  }

  lemma InstructionsMore(trace: seq<Reached>, i: nat)
    requires (forall i :: 0 < i < |trace| ==> trace[i].passed < |trace[i - 1].bb.jmps|) && i < |trace|
    ensures Instructions(trace[..i + 1]) ==
      Instructions(trace[..i]) + if i > 0 then trace[i - 1].bb.jmps[trace[i].passed].instrs + 1 else 0
  {
    assert trace[..i + 1][..i] == trace[..i];
  }

  lemma ExecutedFirst(last: Option<Bbcc>, passed: nat, events: nat)
    requires events > 0 && (last.Some? ==> passed < |last.value.bb.jmps|)
    ensures Executed(last, passed, events)[0] == if last.Some? then last.value.bb.jmps[passed].instrs + 1 else 0
  {
  }

  /** In every run from a fresh thread the recorded stack pointers stay in order and the last block is current. */
  method RunBlocks(st: Settings, trace: seq<Reached>) returns (t: Thread)
    requires forall i :: 0 < i < |trace| ==> trace[i].passed < |trace[i - 1].bb.jmps|
    ensures Steady(t) && Descending(t.entry[..t.sp])
    ensures trace != [] ==> t.bbcc.Some? && t.bbcc.value.bb == trace[|trace| - 1].bb
    ensures st.events > 0 ==> |t.cost| > 0 && t.cost[0] == Instructions(trace)
  {
    hide Moved, Emulated, OriginOf, TrueReturn, Returned, OutOfAll, Underflow, Underflowed, Called, Redirected;
    hide Charged, Backdated, Conserved, CxtOf, LeavesByJump, NoneReturnsTo, StaysAbove, Executed;
    t := new Thread(st);
    assert trace[..|trace|] == trace;
    for i := 0 to |trace|
      invariant Steady(t)
      invariant if i == 0 then t.bbcc.None? else t.bbcc.Some? && t.bbcc.value.bb == trace[i - 1].bb
      invariant |t.cost| == st.events == t.st.events && (st.events > 0 ==> t.cost[0] == Instructions(trace[..i]))
    {
      var r := trace[i];
      InstructionsMore(trace, i);
      if st.events > 0 {
        ExecutedFirst(t.bbcc, r.passed, st.events);
      }
      ghost var charged, arc := SetupBbcc(t, r.bb, r.spAddr, r.passed, r.source, r.seen);
    }
  }

  /** A call and the matching return, at the same stack pointer: the frame of the call, and no other, is popped, and
      the thread is back in the function it called from. */
  method CallAndReturn(t: Thread, callee: BB, back: BB, spAddr: nat, call: nat, ret: nat, source: BB, seen: Option<Cxt>)
    requires Steady(t) && t.bbcc.Some? && call < |t.bbcc.value.bb.jmps| && t.bbcc.value.bb.jmps[call].kind == JkCall
    requires StaysAbove(t.entry[..t.sp], spAddr) && t.nonskipped.None?
    requires ret < |callee.jmps| && callee.jmps[ret].kind == JkReturn && back.addr == t.bbcc.value.bb.jmps[call].retAddr
    requires !callee.fn.skip && t.fnStack[|t.fnStack| - 1] != Some(callee.fn) && InStep(t.Where())
    modifies t
    ensures Steady(t) && t.bbcc.Some? && t.bbcc.value.bb == back
    ensures t.entry[..t.sp] == old(t.entry[..t.sp]) && t.fnStack == old(t.fnStack) && t.cxt == old(t.cxt)
    ensures t.nonskipped.None? && forall fn: Fn :: Depth(t.active, fn) == Depth(old(t.active), fn)
  {
    hide Moved, Emulated, OriginOf, TrueReturn, Returned, OutOfAll, Underflow, Underflowed, Redirected, Called;
    hide Charged, Backdated, Conserved, CxtOf, LeavesByJump, Executed, Sound, Layered, Descending, Ground, LastKind;
    hide FnOf, OnceMore, InStep, Adjust, Counts;
    ghost var f, p, last := t.entry[..t.sp], t.Where(), t.bbcc;
    StepParts(t);
    CallIs(f, last, call, spAddr, callee.addr);
    ghost var c0, a0 := SetupBbcc(t, callee, spAddr, call, source, None);
    StepPlace(p);
    CallPushed(t.st, f, p, last.value, call, callee, spAddr, t.entry[..t.sp], t.Where(), t.bbcc.value);
    ghost var g, q, mid := t.entry[..t.sp], t.Where(), t.bbcc;
    Matching(g, mid, ret, spAddr, back.addr, q.fnStack);
    ghost var c1, a1 := SetupBbcc(t, back, spAddr, ret, source, seen);
    LeavesOne(t.st, f, p, g, q, t.entry[..t.sp], t.Where(), spAddr, back.addr);
  }

  lemma StepPlace(p: Place)
    requires InStep(p)
    ensures p.nonskipped.None? && p.fnStack != [] && p.fnStack[|p.fnStack| - 1].Some?
  {
  }

  lemma CallIs(f: seq<Entry>, last: Option<Bbcc>, passed: nat, spAddr: nat, addr: nat)
    requires last.Some? && passed < |last.value.bb.jmps| && last.value.bb.jmps[passed].kind == JkCall
    ensures LastKind(last, passed) == JkCall && !TrueReturn(f, LastKind(last, passed), spAddr, addr)
  {
  }

  /** The frame of a call that nothing was left behind for */
  lemma CallPushed(st: Settings, f: seq<Entry>, p: Place, last: Bbcc, passed: nat, bb: BB, spAddr: nat,
                   after: seq<Entry>, where: Place, to: Bbcc)
    requires passed < |last.bb.jmps| && last.bb.jmps[passed].kind == JkCall && p.cxt.Some? && p.fnStack != []
    requires to.bb == bb && !bb.fn.skip && p.nonskipped.None? && p.fnStack[|p.fnStack| - 1] != Some(bb.fn)
    requires p.fnStack[|p.fnStack| - 1].Some? && where.cxt == Some(to.cxt)
    requires StaysAbove(f, spAddr)
    requires var e := Emulated(f, Some(last), passed, bb, spAddr);
      var o := OriginOf(st, f, p, Some(last), passed, bb, spAddr);
      Moved(st, o, e || LastKind(Some(last), passed) == JkCall, e, after, where, to)
    ensures |after| == |f| + 1 && after[..|f|] == f && where.fnStack == p.fnStack + [Some(bb.fn)]
    ensures var en := after[|f|];
      && en.sp == spAddr && en.retAddr == last.bb.jmps[passed].retAddr && en.jcc.Some? && en.nonskipped.None?
      && en.cxt == p.cxt && en.fnSp + 1 == |p.fnStack|
      && where.active == if Counts(st, en.jcc.value) then Adjust(p.active, FnOf(en.jcc.value.to), 1) else p.active
  {
    hide CxtOf, Adjust, Counts, FnOf;
    NoneUnwound(f, spAddr);
    OutOfNone(st, p, f);
  }

  lemma Matching(g: seq<Entry>, last: Option<Bbcc>, ret: nat, spAddr: nat, addr: nat, fnStack: seq<Option<Fn>>)
    requires g != [] && g[|g| - 1].sp == spAddr && g[|g| - 1].retAddr == addr
    requires last.Some? && ret < |last.value.bb.jmps| && last.value.bb.jmps[ret].kind == JkReturn
    requires |fnStack| > 1 && fnStack[|fnStack| - 2].Some?
    ensures TrueReturn(g, LastKind(last, ret), spAddr, addr) && !Underflow(g, fnStack)
  {
  }

  lemma LeavesOne(st: Settings, f: seq<Entry>, p: Place, g: seq<Entry>, q: Place, kept: seq<Entry>, where: Place,
                  spAddr: nat, addr: nat)
    requires |g| == |f| + 1 && g[..|f|] == f && g[|f|].sp == spAddr && g[|f|].retAddr == addr
    requires Returned(g, kept, spAddr, addr) && |kept| <= |g| && where == OutOfAll(st, q, g, |g| - |kept|)
    requires g[|f|].jcc.Some? && g[|f|].nonskipped.None? && g[|f|].cxt == p.cxt && g[|f|].fnSp + 1 == |p.fnStack|
    requires p.fnStack <= q.fnStack && p.fnStack != []
    requires var a := g[|f|].jcc.value; q.active == if Counts(st, a) then Adjust(p.active, FnOf(a.to), 1) else p.active
    ensures kept == f && where.fnStack == p.fnStack && where.cxt == p.cxt && where.nonskipped.None?
    ensures forall fn: Fn :: Depth(where.active, fn) == Depth(p.active, fn)
  {
    hide Counts, FnOf, Adjust, Depth, OutOf, OutOfAll, Returned;
    KeepsAll(f, g, kept, spAddr, addr);
    OutOfLast(st, q, g, f);
    BackOut(st, p, q, g[|f|]);
  }

  lemma KeepsAll(f: seq<Entry>, g: seq<Entry>, kept: seq<Entry>, spAddr: nat, addr: nat)
    requires |g| == |f| + 1 && g[..|f|] == f && g[|f|].sp == spAddr && g[|f|].retAddr == addr
    requires Returned(g, kept, spAddr, addr)
    ensures kept == f
  {
    assert |kept| == |f|;
  }

  lemma OutOfLast(st: Settings, q: Place, g: seq<Entry>, f: seq<Entry>)
    requires |g| == |f| + 1 && g[..|f|] == f
    ensures OutOfAll(st, q, g, 1) == OutOf(st, q, g[|f|])
  {
    hide OutOf;
    OutOfNone(st, OutOf(st, q, g[|f|]), f);
  }

  lemma BackOut(st: Settings, p: Place, q: Place, en: Entry)
    requires en.jcc.Some? && en.nonskipped.None? && en.cxt == p.cxt && en.fnSp + 1 == |p.fnStack|
    requires p.fnStack <= q.fnStack && p.fnStack != []
    requires var a := en.jcc.value; q.active == if Counts(st, a) then Adjust(p.active, FnOf(a.to), 1) else p.active
    ensures var where := OutOf(st, q, en);
      && where.fnStack == p.fnStack && where.cxt == p.cxt && where.nonskipped.None?
      && forall fn: Fn :: Depth(where.active, fn) == Depth(p.active, fn)
  {
    hide Counts, FnOf, Adjust, Depth;
    ThereAndBack(p.active, FnOf(en.jcc.value.to));
  }

  lemma ThereAndBack(active: map<nat, int>, fn: Fn)
    ensures forall g: Fn :: Depth(Adjust(Adjust(active, fn, 1), fn, -1), g) == Depth(active, g)
  {
  }

  /** Where only the bottom marker lies below the current function, a return is taken for an underflow although
      there is a frame to leave, and the frame stays.  It happens to the first function of a thread when it calls
      itself, or a function that is skipped, and that call returns. */
  method FirstFunctionReturns(st: Settings, first: BB, callee: BB, back: BB, sp0: nat, sp1: nat, sp2: nat,
                              call: nat, ret: nat, source: BB, seen: Option<Cxt>)
    returns (t: Thread)
    requires call < |first.jmps| && first.jmps[call].kind == JkCall
    requires ret < |callee.jmps| && callee.jmps[ret].kind == JkReturn
    requires callee.fn.skip || callee.fn == first.fn
    requires sp1 < sp2
    ensures Steady(t) && t.bbcc.Some? && t.bbcc.value.bb == back
    ensures t.sp == 1 && t.entry[0].sp == sp1 && t.fnStack == [None, Some(back.fn)]
  {
    hide Moved, Emulated, OriginOf, TrueReturn, Returned, OutOfAll;
    hide Charged, Backdated, Conserved, CxtOf, Sound, Layered, Descending, Ground, Executed;
    t := new Thread(st);
    FreshSteady(t);
    var none: seq<Entry> := [];
    assert t.entry[..t.sp] == none;
    ghost var start := t.Where();
    NoReturn(none, None, 0, sp0, first.addr, JkNone);
    ghost var c0, a0 := SetupBbcc(t, first, sp0, 0, source, None);
    FirstBlock(st, start, first, sp0, t.entry[..t.sp], t.Where(), t.bbcc.value);
    ghost var before, last := t.Where(), t.bbcc;
    assert t.entry[..t.sp] == none;
    NoReturn(none, last, call, sp1, callee.addr, JkCall);
    ghost var c1, a1 := SetupBbcc(t, callee, sp1, call, source, None);
    FirstCall(st, before, last.value, call, callee, sp1, t.entry[..t.sp], t.Where(), t.bbcc.value);
    ReturnAbove(t.entry[..t.sp], t.bbcc, ret, sp2, back.addr);
    ghost var c2, a2 := SetupBbcc(t, back, sp2, ret, source, seen);
  }

  lemma NoReturn(f: seq<Entry>, last: Option<Bbcc>, passed: nat, spAddr: nat, addr: nat, kind: JumpKind)
    requires last.Some? ==> passed < |last.value.bb.jmps|
    requires kind == LastKind(last, passed) && kind != JkReturn
    ensures !TrueReturn(f, LastKind(last, passed), spAddr, addr)
  {
  }

  lemma FirstBlock(st: Settings, p: Place, bb: BB, spAddr: nat, after: seq<Entry>, where: Place, to: Bbcc)
    requires p.fnStack == [None] && p.cxt.None? && to.bb == bb
    requires var e := Emulated([], None, 0, bb, spAddr);
      Moved(st, OriginOf(st, [], p, None, 0, bb, spAddr), e || LastKind(None, 0) == JkCall, e, after, where, to)
    ensures after == [] && where.fnStack == [None, Some(bb.fn)]
  {
    hide CxtOf, Adjust, Counts, FnOf;
  }

  /** A call to the function itself or to one that is skipped adds a frame and leaves the function stack alone. */
  lemma FirstCall(st: Settings, p: Place, last: Bbcc, passed: nat, bb: BB, spAddr: nat, after: seq<Entry>,
                  where: Place, to: Bbcc)
    requires passed < |last.bb.jmps| && last.bb.jmps[passed].kind == JkCall && p.cxt.Some? && to.bb == bb
    requires |p.fnStack| == 2 && (bb.fn.skip || p.fnStack[1] == Some(bb.fn))
    requires var e := Emulated([], Some(last), passed, bb, spAddr);
      var o := OriginOf(st, [], p, Some(last), passed, bb, spAddr);
      Moved(st, o, e || LastKind(Some(last), passed) == JkCall, e, after, where, to)
    ensures |after| == 1 && after[0].sp == spAddr && where.fnStack == p.fnStack
  {
    hide CxtOf, Adjust, Counts, FnOf;
  }

  lemma ReturnAbove(f: seq<Entry>, last: Option<Bbcc>, passed: nat, spAddr: nat, addr: nat)
    requires f != [] && f[|f| - 1].sp < spAddr && last.Some?
    requires passed < |last.value.bb.jmps| && last.value.bb.jmps[passed].kind == JkReturn
    ensures TrueReturn(f, LastKind(last, passed), spAddr, addr)
  {
  }

  lemma FreshSteady(t: Thread)
    requires t.Valid() && t.sp == 0 && t.fnStack == [None] && t.cxt.None? && t.bbcc.None? && t.entry[0].cxt.None?
    ensures Steady(t)
  {
  }
}
