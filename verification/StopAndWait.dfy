/** The stop-and-wait file transfer of the UDP client and server (PA1/udp): a sender that repeats a frame until
    it is acknowledged, a receiver that copies frames into a string buffer and acknowledges them, and two FIFO
    channels that lose and duplicate datagrams.  Both sides wait for datagrams without a timeout, so the sender
    repeats a frame only when some acknowledgement has arrived.  PUT and GET run the same two loops with the roles
    exchanged. */
module StopAndWait {

  const FRAME: nat := 91
  const SEQS: nat := 10000
  const NUL: char := '\0'

  datatype Datagram = Datagram(seqNo: nat, payload: string)

  // ---------------------------------------------------------------------------
  // C strings

  function Strlen(mem: string): (n: nat)
    ensures n <= |mem|
  {
    if mem == [] || mem[0] == NUL then 0 else 1 + Strlen(mem[1..])
  }

  function Text(mem: string): string {
    mem[..Strlen(mem)]
  }

  function Strcpy(mem: string, off: nat, s: string): (r: string)
    requires off + |s| < |mem|
    ensures |r| == |mem|
  {
    mem[..off] + s + [NUL] + mem[off + |s| + 1..]
  }

  /** Strcpy, place by place */
  lemma StrcpyAt(now: string, was: string, off: nat, s: string)
    requires off + |s| < |was| == |now| && now[off + |s|] == NUL
    requires forall i :: 0 <= i < |s| ==> now[off + i] == s[i]
    requires forall i :: 0 <= i < |was| && !(off <= i <= off + |s|) ==> now[i] == was[i]
    ensures now == Strcpy(was, off, s)
  {
    var z := Strcpy(was, off, s);
    forall i | 0 <= i < |was|
      ensures z[i] == now[i]
    {
      if off <= i < off + |s| {
        assert now[off + (i - off)] == s[i - off];
      }
    }
  }

  lemma {:induction false} StrlenAt(mem: string, h: nat)
    requires h < |mem| && mem[h] == NUL && forall i :: 0 <= i < h ==> mem[i] != NUL
    ensures Strlen(mem) == h
  {
    if h > 0 {
      StrlenAt(mem[1..], h - 1);
    }
  }

  lemma {:induction false} StrlenAtMost(mem: string, h: nat)
    requires h < |mem| && mem[h] == NUL
    ensures Strlen(mem) <= h
  {
    if h > 0 && mem[0] != NUL {
      StrlenAtMost(mem[1..], h - 1);
    }
  }

  // ---------------------------------------------------------------------------
  // Frames

  predicate NulFree(file: string) {
    forall i :: 0 <= i < |file| ==> file[i] != NUL
  }

  function FrameCount(n: nat): nat {
    (n + FRAME - 1) / FRAME
  }

  function End(file: string, k: nat): nat {
    if FRAME * k < |file| then FRAME * k else |file|
  }

  function Payload(file: string, k: nat): string
    requires k < FrameCount(|file|)
  {
    file[FRAME * k..End(file, k + 1)]
  }

  lemma FramePlace(file: string, k: nat)
    requires k < FrameCount(|file|)
    ensures End(file, k) == FRAME * k < End(file, k + 1) <= |file| && End(file, k + 1) <= FRAME * k + FRAME
    ensures k + 1 == FrameCount(|file|) ==> End(file, k + 1) == |file|
  {
  }

  // ---------------------------------------------------------------------------
  // The transfer as a state machine

  /** The sender has had `sent` frames acknowledged, its counter stands at `seqNo`, and it is `waiting` if it has
      sent the frame and not yet received anything since. */
  datatype State = State(sent: nat, seqNo: nat, waiting: bool, data: seq<Datagram>, acks: seq<nat>, mem: string)

  datatype Step = Send | TakeData | TakeAck | LoseData(i: nat) | DupData(i: nat) | LoseAck(i: nat) | DupAck(i: nat)

  function Advance(seqNo: nat): nat {
    if seqNo == 9999 then 0 else seqNo + 1
  }

  predicate Start(file: string, s: State) {
    && s.sent == 0 && s.seqNo == 0 && !s.waiting && s.data == [] && s.acks == []
    && |s.mem| > |file| && s.mem[0] == NUL
  }

  predicate Enabled(file: string, s: State, step: Step) {
    match step
    case Send => s.sent < FrameCount(|file|) && !s.waiting
    case TakeData => s.data != [] && Strlen(s.mem) < |file|
    case TakeAck => s.acks != [] && s.sent < FrameCount(|file|) && s.waiting
    case LoseData(i) => i < |s.data|
    case DupData(i) => i < |s.data|
    case LoseAck(i) => i < |s.acks|
    case DupAck(i) => i < |s.acks|
  }

  /** Where a frame is written fits in the buffer. */
  predicate Fits(d: Datagram, mem: string) {
    d.seqNo * FRAME + |d.payload| < |mem|
  }

  function Apply(file: string, s: State, step: Step): State
    requires Enabled(file, s, step) && (step.TakeData? ==> Fits(s.data[0], s.mem))
  {
    match step
    case Send => s.(data := s.data + [Datagram(s.seqNo, Payload(file, s.sent))], waiting := true)
    case TakeData =>
      var d := s.data[0];
      s.(data := s.data[1..], mem := Strcpy(s.mem, d.seqNo * FRAME, d.payload), acks := s.acks + [d.seqNo])
    case TakeAck =>
      var r := s.(acks := s.acks[1..], waiting := false);
      if s.acks[0] == s.seqNo then r.(sent := s.sent + 1, seqNo := Advance(s.seqNo)) else r
    case LoseData(i) => s.(data := s.data[..i] + s.data[i + 1..])
    case DupData(i) => s.(data := s.data[..i + 1] + s.data[i..])
    case LoseAck(i) => s.(acks := s.acks[..i] + s.acks[i + 1..])
    case DupAck(i) => s.(acks := s.acks[..i + 1] + s.acks[i..])
  }

  /** steps lead from s to z */
  predicate Leads(file: string, s: State, steps: seq<Step>, z: State)
    decreases |steps|
  {
    if steps == [] then s == z
    else
      && Enabled(file, s, steps[0]) && (steps[0].TakeData? ==> Fits(s.data[0], s.mem))
      && Leads(file, Apply(file, s, steps[0]), steps[1..], z)
  }

  // ---------------------------------------------------------------------------
  // Safety up to 10000 frames

  ghost predicate Holds(file: string, mem: string, h: nat) {
    h <= |file| < |mem| && mem[..h] == file[..h] && mem[h] == NUL
  }

  /** The receiver has stored frames 0..stored-1. */
  ghost predicate Inv(file: string, s: State, stored: nat) {
    && s.seqNo == s.sent % SEQS
    && s.sent <= stored <= s.sent + 1 && stored <= FrameCount(|file|)
    && Holds(file, s.mem, End(file, stored))
    && InFlight(file, s.data, stored, s.sent)
    && Pending(s.acks, stored, s.sent)
  }

  /** Data underway: in order, no older than the last frame stored and no newer than the one being sent */
  ghost predicate InFlight(file: string, data: seq<Datagram>, stored: nat, sent: nat) {
    && (forall i :: 0 <= i < |data| ==>
         && stored <= data[i].seqNo + 1 && data[i].seqNo <= sent && data[i].seqNo < FrameCount(|file|)
         && data[i].payload == Payload(file, data[i].seqNo))
    && (forall i, j :: 0 <= i < j < |data| ==> data[i].seqNo <= data[j].seqNo)
  }

  /** Acknowledgements underway: in order, for frames stored, none older than the last one the sender took */
  ghost predicate Pending(acks: seq<nat>, stored: nat, sent: nat) {
    && (forall i :: 0 <= i < |acks| ==> sent <= acks[i] + 1 && acks[i] < stored)
    && (forall i, j :: 0 <= i < j < |acks| ==> acks[i] <= acks[j])
  }

  /** Storing a frame again changes nothing; storing the next one extends the text by it. */
  lemma StoreHolds(file: string, mem: string, stored: nat, k: nat)
    requires NulFree(file) && k < FrameCount(|file|) && stored <= FrameCount(|file|) && stored - 1 <= k <= stored
    requires Holds(file, mem, End(file, stored))
    ensures k * FRAME + |Payload(file, k)| < |mem|
    ensures Holds(file, Strcpy(mem, k * FRAME, Payload(file, k)), End(file, k + 1))
  {
    FramePlace(file, k);
    var off, p := k * FRAME, Payload(file, k);
    var h := End(file, k + 1);
    assert off + |p| == h;
    var z := Strcpy(mem, off, p);
    assert off <= End(file, stored);
    assert mem[..off] == file[..off] by {
      assert mem[..off] == mem[..End(file, stored)][..off];
      assert file[..off] == file[..End(file, stored)][..off];
    }
    assert z[..h] == mem[..off] + p == file[..off] + file[off..h] == file[..h];
    assert z[h] == NUL;
  }

  function Stored(s: State, step: Step, stored: nat): nat
    requires step.TakeData? ==> s.data != []
  {
    if step.TakeData? then s.data[0].seqNo + 1 else stored
  }

  lemma InFlightEdit(file: string, data: seq<Datagram>, stored: nat, sent: nat, i: nat)
    requires InFlight(file, data, stored, sent) && i < |data|
    ensures InFlight(file, data[..i] + data[i + 1..], stored, sent)
    ensures InFlight(file, data[..i + 1] + data[i..], stored, sent)
  {
    InFlightLess(file, data, stored, sent, i);
    InFlightMore(file, data, stored, sent, i);
  }

  lemma InFlightLess(file: string, data: seq<Datagram>, stored: nat, sent: nat, i: nat)
    requires InFlight(file, data, stored, sent) && i < |data|
    ensures InFlight(file, data[..i] + data[i + 1..], stored, sent)
  {
    var z := data[..i] + data[i + 1..];
    assert forall j :: 0 <= j < |z| ==> z[j] == data[if j < i then j else j + 1];
  }

  lemma InFlightMore(file: string, data: seq<Datagram>, stored: nat, sent: nat, i: nat)
    requires InFlight(file, data, stored, sent) && i < |data|
    ensures InFlight(file, data[..i + 1] + data[i..], stored, sent)
  {
    var z := data[..i + 1] + data[i..];
    assert forall j :: 0 <= j < |z| ==> z[j] == data[if j <= i then j else j - 1];
  }

  lemma PendingEdit(acks: seq<nat>, stored: nat, sent: nat, i: nat)
    requires Pending(acks, stored, sent) && i < |acks|
    ensures Pending(acks[..i] + acks[i + 1..], stored, sent) && Pending(acks[..i + 1] + acks[i..], stored, sent)
  {
  }

  lemma StepKeeps(file: string, s: State, step: Step, stored: nat)
    requires NulFree(file) && FrameCount(|file|) <= SEQS && Inv(file, s, stored) && Enabled(file, s, step)
    ensures step.TakeData? ==> Fits(s.data[0], s.mem)
    ensures Inv(file, Apply(file, s, step), Stored(s, step, stored))
  {
    hide Strlen, Strcpy, Holds, End;
    match step
    case Send => SendKeeps(file, s, stored);
    case TakeData => TakeDataKeeps(file, s, stored);
    case TakeAck => TakeAckKeeps(file, s, stored);
    case LoseData(i) => InFlightEdit(file, s.data, stored, s.sent, i);
    case DupData(i) => InFlightEdit(file, s.data, stored, s.sent, i);
    case LoseAck(i) => PendingEdit(s.acks, stored, s.sent, i);
    case DupAck(i) => PendingEdit(s.acks, stored, s.sent, i);
  }

  lemma SendKeeps(file: string, s: State, stored: nat)
    requires FrameCount(|file|) <= SEQS && Inv(file, s, stored) && Enabled(file, s, Send)
    ensures Inv(file, Apply(file, s, Send), stored)
  {
    hide Strlen, Strcpy, Holds, End;
  }

  lemma TakeAckKeeps(file: string, s: State, stored: nat)
    requires FrameCount(|file|) <= SEQS && Inv(file, s, stored) && Enabled(file, s, TakeAck)
    ensures Inv(file, Apply(file, s, TakeAck), stored)
  {
    hide Strlen, Strcpy, Holds, End;
  }

  lemma TakeDataKeeps(file: string, s: State, stored: nat)
    requires NulFree(file) && FrameCount(|file|) <= SEQS && Inv(file, s, stored) && Enabled(file, s, TakeData)
    ensures Fits(s.data[0], s.mem)
    ensures Inv(file, Apply(file, s, TakeData), s.data[0].seqNo + 1)
  {
    StoreHolds(file, s.mem, stored, s.data[0].seqNo);
  }

  /** What the invariant says about the text. */
  lemma TextIs(file: string, s: State, stored: nat)
    requires NulFree(file) && Inv(file, s, stored)
    ensures Text(s.mem) == file[..End(file, stored)]
  {
    var h := End(file, stored);
    forall i | 0 <= i < h
      ensures s.mem[i] != NUL
    {
      assert s.mem[i] == s.mem[..h][i] == file[..h][i];
    }
    StrlenAt(s.mem, h);
  }

  lemma {:induction false} RunKeeps(file: string, s: State, steps: seq<Step>, z: State, stored: nat)
    returns (final: nat)
    requires NulFree(file) && FrameCount(|file|) <= SEQS && Inv(file, s, stored) && Leads(file, s, steps, z)
    ensures Inv(file, z, final)
    decreases |steps|
  {
    if steps == [] {
      final := stored;
    } else {
      StepKeeps(file, s, steps[0], stored);
      final := RunKeeps(file, Apply(file, s, steps[0]), steps[1..], z, Stored(s, steps[0], stored));
    }
  }

  /** Whatever is lost or duplicated: the text is a prefix of the file, it holds every frame the sender is past,
      a receiver that leaves its loop has the whole file, and so has it when the sender is through. */
  lemma Safety(file: string, s: State, steps: seq<Step>, z: State)
    requires NulFree(file) && |file| <= SEQS * FRAME && Start(file, s) && Leads(file, s, steps, z)
    ensures Text(z.mem) <= file
    ensures |Text(z.mem)| >= End(file, z.sent)
    ensures Strlen(z.mem) >= |file| ==> Text(z.mem) == file
    ensures z.sent == FrameCount(|file|) ==> Text(z.mem) == file
    ensures forall d :: d in z.data ==> Fits(d, z.mem)
  {
    assert Inv(file, s, 0);
    var r := RunKeeps(file, s, steps, z, 0);
    TextIs(file, z, r);
    forall d | d in z.data
      ensures Fits(d, z.mem)
    {
      FramePlace(file, d.seqNo);
    }
    if r < FrameCount(|file|) {
      FramePlace(file, r);
    }
    assert z.sent < FrameCount(|file|) ==> FRAME * z.sent < |file|;
  }

  // ---------------------------------------------------------------------------
  // Beyond 10000 frames

  /** Sequence numbers start over, so nothing is ever written past frame 9999. */
  ghost predicate Wrapped(s: State) {
    && s.seqNo < SEQS
    && (forall i :: 0 <= i < |s.data| ==> s.data[i].seqNo < SEQS && |s.data[i].payload| <= FRAME)
    && (exists p :: 0 <= p < |s.mem| && p <= SEQS * FRAME && s.mem[p] == NUL)
  }

  lemma StepWraps(file: string, s: State, step: Step)
    requires Wrapped(s) && Enabled(file, s, step) && (step.TakeData? ==> Fits(s.data[0], s.mem))
    ensures Wrapped(Apply(file, s, step))
  {
    var z := Apply(file, s, step);
    if step.TakeData? {
      var p := s.data[0].seqNo * FRAME + |s.data[0].payload|;
      assert z.mem[p] == NUL;
    } else {
      assert z.mem == s.mem;
    }
    if step.Send? {
      FramePlace(file, s.sent);
    }
  }

  lemma {:induction false} RunWraps(file: string, s: State, steps: seq<Step>, z: State)
    requires Wrapped(s) && Leads(file, s, steps, z)
    ensures Wrapped(z) && |z.mem| == |s.mem|
    decreases |steps|
  {
    if steps != [] {
      StepWraps(file, s, steps[0]);
      RunWraps(file, Apply(file, s, steps[0]), steps[1..], z);
    }
  }

  /** A file of more than 10000 frames is never received: the text stays too short in every run. */
  lemma NeverComplete(file: string, s: State, steps: seq<Step>, z: State)
    requires |file| > SEQS * FRAME && Start(file, s) && Leads(file, s, steps, z)
    ensures Strlen(z.mem) < |file|
    ensures forall d :: d in z.data ==> Fits(d, z.mem)
  {
    assert s.mem[0] == NUL;
    RunWraps(file, s, steps, z);
    var p :| 0 <= p < |z.mem| && p <= SEQS * FRAME && z.mem[p] == NUL;
    StrlenAtMost(z.mem, p);
  }

  // ---------------------------------------------------------------------------
  // Delivery

  lemma {:induction false} LeadsOn(file: string, s: State, xs: seq<Step>, m: State, ys: seq<Step>, z: State)
    requires Leads(file, s, xs, m) && Leads(file, m, ys, z)
    ensures Leads(file, s, xs + ys, z)
    decreases |xs|
  {
    if xs == [] {
      assert xs + ys == ys;
    } else {
      assert (xs + ys)[1..] == xs[1..] + ys;
      LeadsOn(file, Apply(file, s, xs[0]), xs[1..], m, ys, z);
    }
  }

  /** One undisturbed round: send, receive, acknowledge. */
  lemma Round(file: string, s: State) returns (z: State)
    requires NulFree(file) && FrameCount(|file|) <= SEQS && Inv(file, s, s.sent) && s.data == [] && s.acks == []
    requires s.sent < FrameCount(|file|) && !s.waiting
    ensures Leads(file, s, [Send, TakeData, TakeAck], z)
    ensures z.sent == s.sent + 1 && !z.waiting && z.data == [] && z.acks == [] && Inv(file, z, z.sent)
  {
    hide Inv, Leads, Strcpy, Strlen;
    FramePlace(file, s.sent);
    TextIs(file, s, s.sent);
    var a := Apply(file, s, Send);
    SendKeeps(file, s, s.sent);
    TakeDataKeeps(file, a, s.sent);
    var b := Apply(file, a, TakeData);
    TakeAckKeeps(file, b, s.sent + 1);
    z := Apply(file, b, TakeAck);
    LeadsFirst(file, b, TakeAck, [], z);
    assert [TakeAck] + [] == [TakeAck];
    LeadsFirst(file, a, TakeData, [TakeAck], z);
    assert [TakeData] + [TakeAck] == [TakeData, TakeAck];
    LeadsFirst(file, s, Send, [TakeData, TakeAck], z);
    assert [Send] + [TakeData, TakeAck] == [Send, TakeData, TakeAck];
  }

  lemma LeadsFirst(file: string, s: State, step: Step, rest: seq<Step>, z: State)
    requires Enabled(file, s, step) && (step.TakeData? ==> Fits(s.data[0], s.mem))
    requires Leads(file, Apply(file, s, step), rest, z)
    ensures Leads(file, s, [step] + rest, z)
  {
    assert ([step] + rest)[1..] == rest;
  }

  /** A file of up to 10000 frames can always be delivered. */
  lemma {:induction false} Delivers(file: string, s: State) returns (steps: seq<Step>, z: State)
    requires NulFree(file) && |file| <= SEQS * FRAME && Inv(file, s, s.sent)
    requires !s.waiting && s.data == [] && s.acks == []
    ensures Leads(file, s, steps, z) && z.sent == FrameCount(|file|) && Text(z.mem) == file
    decreases FrameCount(|file|) - s.sent
  {
    if s.sent == FrameCount(|file|) {
      steps, z := [], s;
      TextIs(file, s, s.sent);
      if |file| > 0 {
        FramePlace(file, s.sent - 1);
      }
    } else {
      var m := Round(file, s);
      var rest;
      rest, z := Delivers(file, m);
      steps := [Send, TakeData, TakeAck] + rest;
      LeadsOn(file, s, [Send, TakeData, TakeAck], m, rest, z);
    }
  }

  /** A run after which the receiver has left its loop */
  ghost predicate Completed(file: string, s: State, steps: seq<Step>, z: State) {
    Leads(file, s, steps, z) && Strlen(z.mem) >= |file|
  }

  ghost predicate CanComplete(file: string, s: State) {
    exists steps, z :: Completed(file, s, steps, z)
  }

  /** The transfer can complete exactly when the file has at most 10000 frames of 91 characters. */
  lemma CompletesExactly(file: string, s: State)
    requires NulFree(file) && Start(file, s)
    ensures CanComplete(file, s) <==> |file| <= 910_000
  {
    if |file| <= SEQS * FRAME {
      assert Inv(file, s, 0);
      var steps, z := Delivers(file, s);
      assert Completed(file, s, steps, z);
    } else {
      forall steps, z | Leads(file, s, steps, z)
        ensures !Completed(file, s, steps, z)
      {
        NeverComplete(file, s, steps, z);
      }
    }
  }

  // ---------------------------------------------------------------------------
  // Whether the sender gets through

  ghost predicate CanFinish(file: string, s: State) {
    exists steps, z :: Leads(file, s, steps, z) && z.sent == FrameCount(|file|)
  }

  /** The receiver has left its loop, and the acknowledgement of the last frame is neither taken nor underway. */
  ghost predicate Stranded(file: string, s: State) {
    && Strlen(s.mem) >= |file| && s.sent + 1 == FrameCount(|file|) && s.seqNo == s.sent
    && forall i :: 0 <= i < |s.acks| ==> s.acks[i] != s.sent
  }

  lemma StrandedStays(file: string, s: State, step: Step)
    requires Stranded(file, s) && Enabled(file, s, step)
    ensures !step.TakeData? && Stranded(file, Apply(file, s, step))
  {
    hide Strlen;
  }

  lemma {:induction false} StrandedForGood(file: string, s: State, steps: seq<Step>, z: State)
    requires Stranded(file, s) && Leads(file, s, steps, z)
    ensures z.sent < FrameCount(|file|)
    decreases |steps|
  {
    if steps != [] {
      StrandedStays(file, s, steps[0]);
      StrandedForGood(file, Apply(file, s, steps[0]), steps[1..], z);
    }
  }

  /** The channels can always be emptied. */
  lemma {:induction false} Drain(file: string, s: State) returns (steps: seq<Step>, z: State)
    ensures Leads(file, s, steps, z) && z == s.(data := [], acks := [])
    decreases |s.data| + |s.acks|
  {
    if s.data != [] {
      var m := Apply(file, s, LoseData(0));
      steps, z := Drain(file, m);
      LeadsFirst(file, s, LoseData(0), steps, z);
      steps := [LoseData(0)] + steps;
    } else if s.acks != [] {
      var m := Apply(file, s, LoseAck(0));
      steps, z := Drain(file, m);
      LeadsFirst(file, s, LoseAck(0), steps, z);
      steps := [LoseAck(0)] + steps;
    } else {
      steps, z := [], s;
    }
  }

  /** An acknowledgement underway can be brought to the sender. */
  lemma {:induction false} Fetch(file: string, s: State, i: nat) returns (steps: seq<Step>, z: State)
    requires i < |s.acks| && s.acks[i] == s.seqNo && s.sent < FrameCount(|file|)
    ensures Leads(file, s, steps, z) && z.sent == s.sent + 1
    decreases !s.waiting, i
  {
    if !s.waiting {
      var m := Apply(file, s, Send);
      steps, z := Fetch(file, m, i);
      LeadsFirst(file, s, Send, steps, z);
      steps := [Send] + steps;
    } else if i == 0 {
      z := Apply(file, s, TakeAck);
      LeadsFirst(file, s, TakeAck, [], z);
      steps := [TakeAck] + [];
    } else {
      var m := Apply(file, s, LoseAck(0));
      steps, z := Fetch(file, m, i - 1);
      LeadsFirst(file, s, LoseAck(0), steps, z);
      steps := [LoseAck(0)] + steps;
    }
  }

  /** A frame stored whose acknowledgement was lost is sent, stored and acknowledged again. */
  lemma Again(file: string, s: State) returns (z: State)
    requires NulFree(file) && FrameCount(|file|) <= SEQS && Inv(file, s, s.sent + 1) && s.data == [] && s.acks == []
    requires s.sent < FrameCount(|file|) && Strlen(s.mem) < |file| && !s.waiting
    ensures Leads(file, s, [Send, TakeData, TakeAck], z)
    ensures z.sent == s.sent + 1 && !z.waiting && z.data == [] && z.acks == [] && Inv(file, z, z.sent)
  {
    hide Inv, Leads, Strcpy, Strlen;
    var a := Apply(file, s, Send);
    SendKeeps(file, s, s.sent + 1);
    SeqIs(file, s, s.sent + 1);
    TakeDataKeeps(file, a, s.sent + 1);
    var b := Apply(file, a, TakeData);
    TakeAckKeeps(file, b, s.sent + 1);
    z := Apply(file, b, TakeAck);
    LeadsDone(file, z);
    LeadsFirst(file, b, TakeAck, [], z);
    assert [TakeAck] + [] == [TakeAck];
    LeadsFirst(file, a, TakeData, [TakeAck], z);
    assert [TakeData] + [TakeAck] == [TakeData, TakeAck];
    LeadsFirst(file, s, Send, [TakeData, TakeAck], z);
    assert [Send] + [TakeData, TakeAck] == [Send, TakeData, TakeAck];
  }

  lemma LeadsDone(file: string, z: State)
    ensures Leads(file, z, [], z)
  {
  }

  lemma SeqIs(file: string, s: State, stored: nat)
    requires FrameCount(|file|) <= SEQS && Inv(file, s, stored) && s.sent < FrameCount(|file|)
    ensures s.seqNo == s.sent
  {
  }

  /** Both sides wait, and nothing is underway. */
  predicate Deadlocked(s: State) {
    s.waiting && s.data == [] && s.acks == []
  }

  /** Nothing ever happens again. */
  lemma DeadlockStays(file: string, s: State, steps: seq<Step>, z: State)
    requires Deadlocked(s) && Leads(file, s, steps, z)
    ensures steps == [] && z == s
  {
  }

  /** One lost datagram is enough: the first frame of any file, for one. */
  lemma LossDeadlocks(file: string, s: State) returns (z: State)
    requires NulFree(file) && 0 < |file| && Start(file, s)
    ensures Leads(file, s, [Send, LoseData(0)], z) && Deadlocked(z)
    ensures !CanFinish(file, z) && !CanComplete(file, z)
  {
    var a := Apply(file, s, Send);
    z := Apply(file, a, LoseData(0));
    assert [Send, LoseData(0)][1..] == [LoseData(0)] && [LoseData(0)][1..] == [];
    forall steps, end | Leads(file, z, steps, end)
      ensures end.sent != FrameCount(|file|) && Strlen(end.mem) < |file|
    {
      DeadlockStays(file, z, steps, end);
    }
  }

  /** And so it can be stopped at any point: as long as the sender is not through, losses can leave it waiting. */
  lemma LossesCanStop(file: string, s: State) returns (steps: seq<Step>, z: State)
    requires s.sent < FrameCount(|file|)
    ensures Leads(file, s, steps, z) && Deadlocked(z) && z.sent == s.sent && z.mem == s.mem && !CanFinish(file, z)
  {
    if s.waiting {
      steps, z := Drain(file, s);
    } else {
      steps, z := Drain(file, Apply(file, s, Send));
      LeadsFirst(file, s, Send, steps, z);
      steps := [Send] + steps;
    }
    forall more, end | Leads(file, z, more, end)
      ensures end.sent != FrameCount(|file|)
    {
      DeadlockStays(file, z, more, end);
    }
  }

  /** At any point of any run the sender can still get through exactly if it is through, or the acknowledgement of
      the last frame is underway, or the receiver is still in its loop and the two do not wait for each other. */
  lemma FinishesExactly(file: string, s: State, steps: seq<Step>, z: State)
    requires NulFree(file) && |file| <= SEQS * FRAME && Start(file, s) && Leads(file, s, steps, z)
    ensures CanFinish(file, z) <==>
      || z.sent == FrameCount(|file|) || FrameCount(|file|) - 1 in z.acks
      || (Strlen(z.mem) < |file| && (!z.waiting || z.data != [] || z.acks != []))
  {
    assert Inv(file, s, 0);
    var stored := RunKeeps(file, s, steps, z, 0);
    hide Leads;
    if z.sent == FrameCount(|file|) {
      LeadsDone(file, z);
      assert CanFinish(file, z);
    } else if Deadlocked(z) {
      forall more, end | Leads(file, z, more, end)
        ensures end.sent != FrameCount(|file|)
      {
        DeadlockStays(file, z, more, end);
      }
    } else if Strlen(z.mem) < |file| {
      GoOn(file, z, stored);
    } else {
      LeftLoop(file, z, stored);
    }
  }

  /** The receiver can still get the whole file exactly if it has it, or the two do not wait for each other. */
  lemma ReceivesExactly(file: string, s: State, steps: seq<Step>, z: State)
    requires NulFree(file) && |file| <= SEQS * FRAME && Start(file, s) && Leads(file, s, steps, z)
    ensures CanComplete(file, z) <==> Strlen(z.mem) >= |file| || !z.waiting || z.data != [] || z.acks != []
  {
    if Strlen(z.mem) >= |file| {
      assert Completed(file, z, [], z);
    } else if Deadlocked(z) {
      forall more, end | Leads(file, z, more, end)
        ensures !Completed(file, z, more, end)
      {
        DeadlockStays(file, z, more, end);
      }
    } else {
      FinishesExactly(file, s, steps, z);
      var more, end :| Leads(file, z, more, end) && end.sent == FrameCount(|file|);
      LeadsOn(file, s, steps, z, more, end);
      Safety(file, s, steps + more, end);
      assert Completed(file, z, more, end);
    }
  }

  /** The receiver has left its loop: now all depends on the last acknowledgement. */
  lemma LeftLoop(file: string, s: State, stored: nat)
    requires NulFree(file) && |file| <= SEQS * FRAME && Inv(file, s, stored)
    requires s.sent < FrameCount(|file|) && Strlen(s.mem) >= |file|
    ensures CanFinish(file, s) <==> FrameCount(|file|) - 1 in s.acks
  {
    hide Leads;
    AllStored(file, s, stored);
    SeqIs(file, s, stored);
    if s.sent in s.acks {
      var i :| 0 <= i < |s.acks| && s.acks[i] == s.sent;
      var more, end := Fetch(file, s, i);
      assert CanFinish(file, s);
    } else {
      assert Stranded(file, s);
      forall more, end | Leads(file, s, more, end)
        ensures end.sent != FrameCount(|file|)
      {
        StrandedForGood(file, s, more, end);
      }
    }
  }

  lemma FinishLater(file: string, s: State, step: Step)
    requires Enabled(file, s, step) && (step.TakeData? ==> Fits(s.data[0], s.mem))
    requires CanFinish(file, Apply(file, s, step))
    ensures CanFinish(file, s)
  {
    hide Leads;
    var more, end :| Leads(file, Apply(file, s, step), more, end) && end.sent == FrameCount(|file|);
    LeadsFirst(file, s, step, more, end);
  }

  /** As long as the receiver is in its loop anything that arrives sets the transfer going again. */
  lemma GoOn(file: string, s: State, stored: nat)
    requires NulFree(file) && |file| <= SEQS * FRAME && Inv(file, s, stored)
    requires s.sent < FrameCount(|file|) && Strlen(s.mem) < |file| && !Deadlocked(s)
    ensures CanFinish(file, s)
    decreases s.waiting, s.acks == []
  {
    hide Leads, Inv, Strcpy, Strlen;
    if !s.waiting {
      Resume(file, s, stored);
    } else if s.acks != [] {
      StepKeeps(file, s, TakeAck, stored);
      var z := Apply(file, s, TakeAck);
      if z.sent == FrameCount(|file|) {
        LeadsDone(file, z);
      } else {
        GoOn(file, z, stored);
      }
      FinishLater(file, s, TakeAck);
    } else {
      StepKeeps(file, s, TakeData, stored);
      var z := Apply(file, s, TakeData);
      if Strlen(z.mem) < |file| {
        GoOn(file, z, s.data[0].seqNo + 1);
      } else {
        LastStored(file, s, stored);
        assert z.acks[0] == FrameCount(|file|) - 1;
        LeftLoop(file, z, s.data[0].seqNo + 1);
      }
      FinishLater(file, s, TakeData);
    }
  }

  /** The frame that completes the text is the last one. */
  lemma LastStored(file: string, s: State, stored: nat)
    requires NulFree(file) && FrameCount(|file|) <= SEQS && Inv(file, s, stored) && Enabled(file, s, TakeData)
    requires s.sent < FrameCount(|file|) && Fits(s.data[0], s.mem) && Strlen(Apply(file, s, TakeData).mem) >= |file|
    ensures s.data[0].seqNo + 1 == FrameCount(|file|)
  {
    TakeDataKeeps(file, s, stored);
    AllStored(file, Apply(file, s, TakeData), s.data[0].seqNo + 1);
  }

  /** A receiver that has left its loop has stored all frames, and the sender is at the last one. */
  lemma AllStored(file: string, s: State, stored: nat)
    requires NulFree(file) && Inv(file, s, stored) && Strlen(s.mem) >= |file| && s.sent < FrameCount(|file|)
    ensures s.sent + 1 == FrameCount(|file|) && stored == FrameCount(|file|)
  {
    TextIs(file, s, stored);
    if stored < FrameCount(|file|) {
      FramePlace(file, stored);
    }
  }

  lemma DrainKeeps(file: string, s: State, stored: nat)
    requires Inv(file, s, stored)
    ensures Inv(file, s.(data := [], acks := []), stored)
  {
    hide Holds, End, FrameCount;
  }

  lemma Resume(file: string, s: State, stored: nat)
    requires NulFree(file) && |file| <= SEQS * FRAME && Inv(file, s, stored)
    requires s.sent < FrameCount(|file|) && Strlen(s.mem) < |file| && !s.waiting
    ensures CanFinish(file, s)
  {
    hide Leads, Inv;
    var first, m := Drain(file, s);
    DrainKeeps(file, s, stored);
    if stored == s.sent {
      var rest, z := Delivers(file, m);
      LeadsOn(file, s, first, m, rest, z);
      assert CanFinish(file, s);
    } else {
      StoredOne(file, s, stored);
      var n := Again(file, m);
      LeadsOn(file, s, first, m, [Send, TakeData, TakeAck], n);
      var rest, z := Delivers(file, n);
      LeadsOn(file, s, first + [Send, TakeData, TakeAck], n, rest, z);
      assert CanFinish(file, s);
    }
  }

  lemma StoredOne(file: string, s: State, stored: nat)
    requires Inv(file, s, stored) && stored != s.sent
    ensures stored == s.sent + 1
  {
  }

  // ---------------------------------------------------------------------------
  // The two loops

  /** The sender's loop variables */
  class Sender {
    const file: string
    var i: nat
    var seqNo: nat

    ghost predicate At(s: State)
      reads this
    {
      i == s.sent * FRAME && seqNo == s.seqNo
    }

    constructor (file: string)
      ensures this.file == file && i == 0 && seqNo == 0
    {
      this.file := file;
      i, seqNo := 0, 0;
    }

    /** The frame to be sent until it is acknowledged */
    method Frame(ghost s: State) returns (d: Datagram)
      requires At(s) && Enabled(file, s, Send)
      ensures Apply(file, s, Send) == s.(data := s.data + [d], waiting := true)
    {
      FramePlace(file, s.sent);
      d := Datagram(seqNo, file[i..if i + FRAME < |file| then i + FRAME else |file|]);
    }

    /** An acknowledgement arrives; a matching one moves on to the next frame. */
    method OnAck(a: nat, ghost s: State)
      requires At(s) && Enabled(file, s, TakeAck) && a == s.acks[0]
      modifies this
      ensures At(Apply(file, s, TakeAck))
    {
      if a == seqNo {
        i := i + FRAME;
        if seqNo == 9999 {
          seqNo := 0;
        } else {
          seqNo := seqNo + 1;
        }
      }
    }

    method Finished(ghost s: State) returns (done: bool)
      requires At(s) && s.sent <= FrameCount(|file|)
      ensures done <==> s.sent == FrameCount(|file|)
    {
      done := !(i < |file|);
      if s.sent < FrameCount(|file|) {
        FramePlace(file, s.sent);
      }
    }
  }

  /** The receiver's buffer */
  class Receiver {
    const data: array<char>

    constructor (size: nat)
      requires size > 0
      ensures fresh(data) && data.Length == size && data[0] == NUL
    {
      data := new char[size](_ => NUL);
    }

    /** strlen, as the loop condition evaluates it */
    method Length() returns (n: nat)
      ensures n == Strlen(data[..])
    {
      n := 0;
      assert data[0..] == data[..];
      while n < data.Length && data[n] != NUL
        invariant n <= data.Length && Strlen(data[..]) == n + Strlen(data[n..])
      {
        assert data[n..][1..] == data[n + 1..];
        n := n + 1;
      }
    }

    /** strcpy of a frame's payload to its place, and the acknowledgement */
    method OnFrame(d: Datagram) returns (a: nat)
      requires Fits(d, data[..])
      modifies data
      ensures a == d.seqNo && data[..] == Strcpy(old(data[..]), d.seqNo * FRAME, d.payload)
    {
      var off, n := d.seqNo * FRAME, |d.payload|;
      ghost var was := data[..];
      for k := 0 to n
        invariant forall i :: 0 <= i < k ==> data[off + i] == d.payload[i]
        invariant forall i :: 0 <= i < data.Length && !(off <= i < off + k) ==> data[i] == was[i]
      {
        data[off + k] := d.payload[k];
      }
      data[off + n] := NUL;
      a := d.seqNo;
      StrcpyAt(data[..], was, off, d.payload);
    }
  }
}
