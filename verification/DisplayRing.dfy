/** The driver extension's ring of 16 display buffers: reserve under the lock, hand the buffer to the
    USB pipe with the lock released, roll back if the pipe refuses, free slots as completions arrive. */
module DisplayRing {
  import Encoder
  import Framebuffers
  import Tiles
  import Wire
  import opened Words

  const DEPTH := 16

  type Slot = x: int | 0 <= x < 16

  /** `x % 16` for the sums that occur: a slot plus at most the ring depth. */
  function Wrap(x: nat): Slot
    requires x < 32
  {
    if x < 16 then x else x - 16
  }

  lemma WrapIsRemainder(x: nat)
    requires x < 32
    ensures Wrap(x) == x % 16
  {
  }

  datatype Ring = Ring(head: Slot, tail: Slot, inflight: nat, slotSeq: seq<u32>) {
    ghost predicate Valid() {
      inflight <= DEPTH && |slotSeq| == DEPTH
    }
    /** The in-flight slots are the `inflight` ones from `tail` up to, not including, `head`. */
    ghost predicate Aligned()
      requires Valid()
    {
      head == Wrap(tail + inflight)
    }
  }

  function Reserved(r: Ring, seqNo: u32): Ring
    requires |r.slotSeq| == DEPTH
  {
    Ring(Wrap(r.head + 1), r.tail, r.inflight + 1, r.slotSeq[r.head := seqNo])
  }

  function RolledBack(r: Ring, slot: Slot): Ring {
    r.(head := slot, inflight := if r.inflight > 0 then r.inflight - 1 else 0)
  }

  /** The exits between reserving and submitting: the count goes down, the head stays. */
  function Abandoned(r: Ring): Ring {
    r.(inflight := if r.inflight > 0 then r.inflight - 1 else 0)
  }

  /** `n` completed transfers. */
  function Completed(r: Ring, n: nat): Ring
    requires n <= DEPTH
  {
    r.(tail := Wrap(r.tail + n), inflight := if r.inflight > n then r.inflight - n else 0)
  }

  datatype Status = Success | BadArgument | NotReady | NoResources | PipeError(code: int)

  const SLOT_SIZE := 524288

  /** What is found in the reserved slot: a mapped buffer, none, or one whose address cannot be had. */
  datatype Buffer = Usable | Missing | NoAddress(code: int)

  class Transport {
    var head: Slot
    var tail: Slot
    var inflight: nat
    const slotSeq: array<u32>

    ghost predicate Valid()
      reads this, slotSeq
    {
      slotSeq.Length == DEPTH && State().Valid()
    }

    ghost function State(): Ring
      reads this, slotSeq
    {
      Ring(head, tail, inflight, slotSeq[..])
    }

    constructor ()
      ensures Valid() && fresh(slotSeq) && State() == Ring(0, 0, 0, seq(DEPTH, _ => 0))
    {
      head, tail, inflight := 0, 0, 0;
      slotSeq := new u32[DEPTH](_ => 0);
    }

    /** First lock section of a submission; None when the ring is full. */
    method Reserve(seqNo: u32) returns (slot: Option<Slot>)
      requires Valid()
      modifies this, slotSeq
      ensures Valid()
      ensures old(inflight) >= DEPTH ==> slot == None && State() == old(State())
      ensures old(inflight) < DEPTH ==> slot == Some(old(head)) && State() == Reserved(old(State()), seqNo)
    {
      if inflight >= DEPTH { return None; }
      var taken := head;
      head := (head + 1) % 16;
      inflight := inflight + 1;
      slotSeq[taken] := seqNo;
      return Some(taken);
    }

    /** Lock section after the pipe refused the buffer. */
    method Rollback(slot: Slot)
      requires Valid()
      modifies this
      ensures Valid() && State() == RolledBack(old(State()), slot)
    {
      if inflight > 0 { inflight := inflight - 1; }
      head := slot;
    }

    /** Lock section of an exit that finds no usable buffer. */
    method Abandon()
      requires Valid()
      modifies this
      ensures Valid() && State() == Abandoned(old(State()))
    {
      if inflight > 0 { inflight := inflight - 1; }
    }

    /** Completion of the slots from `index` on, one status each, at most a ring's worth; what to report. */
    method HandleComplete(index: nat, statuses: seq<int>) returns (done: seq<(u32, int)>)
      requires Valid()
      modifies this
      ensures Valid()
      ensures |done| == if |statuses| < DEPTH then |statuses| else DEPTH
      ensures State() == Completed(old(State()), |done|)
      ensures forall i :: 0 <= i < |done| ==> done[i] == (slotSeq[(index + i) % 16], statuses[i])
      ensures index == old(tail) ==>
                forall i :: 0 <= i < |done| ==> done[i].0 == Reported(old(State()), |done|)[i]
    {
      done := [];
      var count := if |statuses| < DEPTH then |statuses| else DEPTH;
      for i := 0 to count
        invariant Valid() && |done| == i
        invariant head == old(head) && slotSeq[..] == old(slotSeq[..])
        invariant tail == Wrap(old(tail) + i)
        invariant inflight == if old(inflight) > i then old(inflight) - i else 0
        invariant forall k :: 0 <= k < i ==> done[k] == (slotSeq[(index + k) % 16], statuses[k])
      {
        var slot := (index + i) % 16;
        done := done + [(slotSeq[slot], statuses[i])];
        if inflight > 0 { inflight := inflight - 1; }
        tail := (tail + 1) % 16;
      }
      forall i | 0 <= i < |done| && index == old(tail)
        ensures done[i].0 == Reported(old(State()), |done|)[i]
      {
        WrapIsRemainder(index + i);
      }
    }

    /** A whole submission with nothing completing meanwhile; `ready` says whether the pipe is set up, `buffer`
        what the slot holds, `answer` and `accepted` are what the pipe returns for the buffer. */
    method SubmitBulkOut(length: nat, seqNo: u32, ready: bool, buffer: Buffer, answer: int, accepted: nat)
      returns (status: Status)
      requires Valid()
      modifies this, slotSeq
      ensures Valid()
      ensures length == 0 || length > SLOT_SIZE ==> status == BadArgument
      ensures 0 < length <= SLOT_SIZE && !ready ==> status == NotReady
      ensures 0 < length <= SLOT_SIZE && ready && old(inflight) >= DEPTH ==> status == NoResources
      ensures var reserves := 0 < length <= SLOT_SIZE && ready && old(inflight) < DEPTH;
              && (status == Success <==> reserves && buffer.Usable? && answer == 0 && accepted == 1)
              && (status == Success ==> State() == Reserved(old(State()), seqNo))
              && (reserves && !buffer.Usable? ==>
                    && State() == Abandoned(Reserved(old(State()), seqNo))
                    && status == if buffer == Missing || buffer.code == 0 then NotReady else PipeError(buffer.code))
              && (reserves && buffer.Usable? && status != Success ==>
                    status == if answer == 0 then NoResources else PipeError(answer))
              && (status != Success && !(reserves && !buffer.Usable?) ==>
                    State().(slotSeq := old(State()).slotSeq) == old(State()))
      ensures forall i :: 0 <= i < DEPTH && i != old(head) ==> slotSeq[i] == old(slotSeq[i])
    {
      if length == 0 || length > SLOT_SIZE { return BadArgument; }
      if !ready { return NotReady; }
      var slot := Reserve(seqNo);
      if slot.None? { return NoResources; }
      if buffer.Missing? {
        Abandon();
        return NotReady;
      }
      if buffer.NoAddress? {
        Abandon();
        return if buffer.code != 0 then PipeError(buffer.code) else NotReady;
      }
      if answer != 0 || accepted != 1 {
        Rollback(slot.value);
        return if answer == 0 then NoResources else PipeError(answer);
      }
      return Success;
    }
  }

  /** No frame of the encoder is ever refused for its length. */
  lemma FramesFitTheirSlot(id: Wire.DisplayId, fb: Framebuffers.Fb, payload: seq<u8>)
    requires Encoder.IsFrame(id, fb, payload)
    ensures 0 < |payload| <= SLOT_SIZE == 524288
  {
    var runs :| Tiles.Canonical(runs, fb.dirty) && Encoder.FrameFor(id, fb, payload, runs);
    Encoder.FrameSize(id, fb.pixels, runs, fb.dirty);
    Encoder.FrameLength(id, fb.pixels, runs);
  }

  // ----- the protocol: one submission at a time, completions in between -----

  datatype Transfer = Transfer(slot: Slot, seqNo: u32)

  /** Where the one submission under way stands. */
  datatype Phase = NoSubmit | Holding(slot: Slot, seqNo: u32) | Refused(slot: Slot)

  /** `queue` is what the pipe has accepted and not completed; the two logs record the sequence
      numbers the pipe accepted and those reported as done. */
  datatype System = System(ring: Ring, phase: Phase, queue: seq<Transfer>, accepted: seq<u32>, delivered: seq<u32>)

  datatype Step =
    | Submit(seqNo: u32)
    | SubmitFull(seqNo: u32)
    | Accept
    | Refuse
    | Rewind
    | Complete(n: nat)

  ghost predicate Enabled(s: System, step: Step) {
    match step
    case Submit(_) => s.phase.NoSubmit? && s.ring.inflight < DEPTH && |s.ring.slotSeq| == DEPTH
    case SubmitFull(_) => s.phase.NoSubmit? && s.ring.inflight >= DEPTH
    case Accept => s.phase.Holding?
    case Refuse => s.phase.Holding?
    case Rewind => s.phase.Refused?
    case Complete(n) => n <= |s.queue| && n <= DEPTH && |s.ring.slotSeq| == DEPTH
  }

  ghost function SeqNos(queue: seq<Transfer>): seq<u32> {
    seq(|queue|, (k: nat) requires k < |queue| => queue[k].seqNo)
  }

  /** What the completion handler reports: the sequence numbers stored for `n` slots from the tail. */
  ghost function Reported(r: Ring, n: nat): seq<u32>
    requires |r.slotSeq| == DEPTH && n <= DEPTH
  {
    seq(n, (k: nat) requires k < n => r.slotSeq[Wrap(r.tail + k)])
  }

  ghost function Apply(s: System, step: Step): System
    requires Enabled(s, step)
  {
    match step
    case Submit(seqNo) => s.(ring := Reserved(s.ring, seqNo), phase := Holding(s.ring.head, seqNo))
    case SubmitFull(_) => s
    case Accept =>
      s.(phase := NoSubmit, queue := s.queue + [Transfer(s.phase.slot, s.phase.seqNo)],
         accepted := s.accepted + [s.phase.seqNo])
    case Refuse => s.(phase := Refused(s.phase.slot))
    case Rewind => s.(phase := NoSubmit, ring := RolledBack(s.ring, s.phase.slot))
    case Complete(n) =>
      s.(ring := Completed(s.ring, n), queue := s.queue[n..], delivered := s.delivered + Reported(s.ring, n))
  }

  ghost predicate Inv(s: System) {
    var r := s.ring;
    && r.Valid() && r.Aligned()
    && r.inflight == |s.queue| + (if s.phase.NoSubmit? then 0 else 1)
    && (forall k :: 0 <= k < |s.queue| ==>
          s.queue[k].slot == Wrap(r.tail + k) && r.slotSeq[s.queue[k].slot] == s.queue[k].seqNo)
    && (!s.phase.NoSubmit? ==> s.phase.slot == Wrap(r.tail + |s.queue|))
    && (s.phase.Holding? ==> r.slotSeq[s.phase.slot] == s.phase.seqNo)
    && s.accepted == s.delivered + SeqNos(s.queue)
  }

  ghost function Start(): System {
    System(Ring(0, 0, 0, seq(DEPTH, _ => 0)), NoSubmit, [], [], [])
  }

  lemma ReportedIsAccepted(s: System, n: nat)
    requires Inv(s) && n <= |s.queue|
    ensures Reported(s.ring, n) + SeqNos(s.queue[n..]) == SeqNos(s.queue)
  {
    assert forall k: nat :: k < n ==> s.queue[k].slot == Wrap(s.ring.tail + k);
  }

  lemma CompleteKeepsInv(s: System, n: nat)
    requires Inv(s) && n <= |s.queue|
    ensures Inv(Apply(s, Complete(n)))
  {
    var t := Apply(s, Complete(n));
    forall k: nat | k < |t.queue|
      ensures t.queue[k].slot == Wrap(t.ring.tail + k) && t.ring.slotSeq[t.queue[k].slot] == t.queue[k].seqNo
    {
      assert t.queue[k] == s.queue[n + k];
    }
    ReportedIsAccepted(s, n);
    assert t.accepted == t.delivered + SeqNos(t.queue);
  }

  lemma StepKeepsInv(s: System, step: Step)
    requires Inv(s) && Enabled(s, step)
    ensures Inv(Apply(s, step))
  {
    match step {
      case Complete(n) => CompleteKeepsInv(s, n);
      case Accept =>
        var t := Apply(s, step);
        assert SeqNos(t.queue) == SeqNos(s.queue) + [s.phase.seqNo];
      case _ =>
    }
  }

  ghost predicate Runnable(s: System, steps: seq<Step>)
    decreases |steps|
  {
    steps == [] || (Enabled(s, steps[0]) && Runnable(Apply(s, steps[0]), steps[1..]))
  }

  ghost function After(s: System, steps: seq<Step>): System
    requires Runnable(s, steps)
    decreases |steps|
  {
    if steps == [] then s else After(Apply(s, steps[0]), steps[1..])
  }

  /** On every interleaving of submissions, pipe answers and completions: the ring stays aligned, at
      most 16 are in flight, every in-flight slot still holds the sequence number it was accepted
      with, and the numbers reported are the accepted ones in order, each once, up to those in flight. */
  lemma {:induction false} EveryRunKeepsInv(s: System, steps: seq<Step>)
    requires Inv(s) && Runnable(s, steps)
    ensures Inv(After(s, steps))
    decreases |steps|
  {
    if steps == [] {
    } else {
      StepKeepsInv(s, steps[0]);
      EveryRunKeepsInv(Apply(s, steps[0]), steps[1..]);
    }
  }

  lemma SlotsDistinct(s: System, i: nat, j: nat)
    requires Inv(s) && i < j < |s.queue|
    ensures s.queue[i].slot != s.queue[j].slot
  {
  }

  lemma HeadIsRemainder(s: System)
    requires Inv(s)
    ensures s.ring.head == (s.ring.tail + s.ring.inflight) % 16
  {
    WrapIsRemainder(s.ring.tail + s.ring.inflight);
  }

  lemma DeliveredIsPrefix(s: System)
    requires Inv(s)
    ensures s.delivered <= s.accepted && |s.accepted| - |s.delivered| == |s.queue|
  {
  }

  /** What the invariant means for the driver's callers. */
  ghost predicate InOrder(s: System) {
    && s.ring.inflight <= DEPTH
    && s.ring.head == (s.ring.tail + s.ring.inflight) % 16
    && s.delivered <= s.accepted && |s.accepted| - |s.delivered| == |s.queue|
    && forall i, j :: 0 <= i < j < |s.queue| ==> s.queue[i].slot != s.queue[j].slot
  }

  lemma InvIsInOrder(s: System)
    requires Inv(s)
    ensures InOrder(s)
  {
    HeadIsRemainder(s);
    DeliveredIsPrefix(s);
    forall i: nat, j: nat | i < j < |s.queue| ensures s.queue[i].slot != s.queue[j].slot {
      SlotsDistinct(s, i, j);
    }
  }

  lemma StartInv()
    ensures Inv(Start())
  {
  }

  /** From the start: the ring is consistent, no slot is in flight twice, and the numbers reported are the
      accepted ones in order, each once, up to those in flight. */
  lemma DoneInOrder(steps: seq<Step>)
    requires Runnable(Start(), steps)
    ensures InOrder(After(Start(), steps))
  {
    StartInv();
    EveryRunKeepsInv(Start(), steps);
    InvIsInOrder(After(Start(), steps));
  }

  // ----- a refused submission leaves no trace -----

  ghost predicate OnlyRefusalAndCompletions(steps: seq<Step>) {
    forall i :: 0 <= i < |steps| ==> steps[i].Complete? || steps[i].Refuse?
  }

  function Completions(steps: seq<Step>): seq<Step> {
    if steps == [] then []
    else (if steps[0].Complete? then [steps[0]] else []) + Completions(steps[1..])
  }

  /** `t` is `s` as it would be had the submission under way never been made. */
  ghost predicate Without(s: System, t: System) {
    && Inv(s) && Inv(t) && !s.phase.NoSubmit? && t.phase.NoSubmit?
    && s.queue == t.queue && s.accepted == t.accepted && s.delivered == t.delivered
    && t.ring.tail == s.ring.tail
    && forall i :: 0 <= i < DEPTH && i != s.phase.slot ==> s.ring.slotSeq[i] == t.ring.slotSeq[i]
  }

  lemma CompleteBoth(s: System, t: System, n: nat)
    requires Without(s, t) && n <= |s.queue|
    ensures Without(Apply(s, Complete(n)), Apply(t, Complete(n)))
  {
    CompleteKeepsInv(s, n);
    CompleteKeepsInv(t, n);
    ReportedIsAccepted(s, n);
    ReportedIsAccepted(t, n);
    assert Reported(s.ring, n) == SeqNos(s.queue)[..n];
    assert Reported(t.ring, n) == SeqNos(t.queue)[..n];
  }

  lemma {:induction false} RefusedRun(s: System, t: System, steps: seq<Step>)
    requires Without(s, t) && OnlyRefusalAndCompletions(steps) && Runnable(s, steps)
    ensures Runnable(t, Completions(steps))
    ensures Without(After(s, steps), After(t, Completions(steps)))
    decreases |steps|
  {
    if steps == [] {
    } else {
      var step := steps[0];
      assert step.Complete? || step.Refuse?;
      if step.Complete? {
        CompleteBoth(s, t, step.n);
        RefusedRun(Apply(s, step), Apply(t, step), steps[1..]);
        assert Completions(steps) == [step] + Completions(steps[1..]);
        assert Completions(steps)[1..] == Completions(steps[1..]);
      } else {
        StepKeepsInv(s, step);
        RefusedRun(Apply(s, step), t, steps[1..]);
        assert Completions(steps) == Completions(steps[1..]);
      }
    }
  }

  lemma RewindRestores(s: System, t: System)
    requires Without(s, t) && s.phase.Refused?
    ensures var end := Apply(s, Rewind);
            && Inv(end) && end.(ring := t.ring) == t && end.ring.(slotSeq := t.ring.slotSeq) == t.ring
            && forall k :: 0 <= k < |end.queue| ==>
                 end.ring.slotSeq[end.queue[k].slot] == t.ring.slotSeq[end.queue[k].slot]
  {
    StepKeepsInv(s, Rewind);
  }

  /** After any completions before and after the refusal, the rewind leaves the ring, the queue and
      the logs exactly as the same completions alone would have, up to one slot that is not in flight. */
  lemma RefusalLeavesNoTrace(s: System, seqNo: u32, steps: seq<Step>)
    requires Inv(s) && Enabled(s, Submit(seqNo))
    requires OnlyRefusalAndCompletions(steps) && Runnable(Apply(s, Submit(seqNo)), steps)
    requires Enabled(After(Apply(s, Submit(seqNo)), steps), Rewind)
    ensures Runnable(s, Completions(steps))
    ensures var end := Apply(After(Apply(s, Submit(seqNo)), steps), Rewind);
            var plain := After(s, Completions(steps));
            && Inv(end) && Inv(plain)
            && end.(ring := plain.ring) == plain && end.ring.(slotSeq := plain.ring.slotSeq) == plain.ring
            && forall k :: 0 <= k < |end.queue| ==>
                 end.ring.slotSeq[end.queue[k].slot] == plain.ring.slotSeq[end.queue[k].slot]
  {
    var held := Apply(s, Submit(seqNo));
    StepKeepsInv(s, Submit(seqNo));
    RefusedRun(held, s, steps);
    RewindRestores(After(held, steps), After(s, Completions(steps)));
  }

  // ----- why the rules matter -----

  /** A rewind keeps the ring aligned exactly when it gives back the most recently reserved slot, which
      one submission at a time guarantees. */
  lemma RewindNeedsLastSlot(r: Ring, slot: Slot)
    requires r.Valid() && r.Aligned() && r.inflight > 0
    ensures RolledBack(r, slot).Valid()
    ensures RolledBack(r, slot).Aligned() <==> slot == Wrap(r.head + 15)
  {
  }

  /** The exits that give up after reserving because the slot has no usable buffer lower `inflight` but
      keep `head`: from every aligned ring they leave one that is not aligned. */
  lemma UnusableBufferMisaligns(r: Ring, seqNo: u32)
    requires r.Valid() && r.Aligned() && r.inflight < DEPTH
    ensures var left := Abandoned(Reserved(r, seqNo)); left.Valid() && !left.Aligned()
  {
  }

  /** How many slots past `from` a slot is, going round. */
  function Past(from: Slot, slot: Slot): (n: nat)
    ensures n < DEPTH && Wrap(from + n) == slot
  {
    if slot >= from then slot - from else slot + 16 - from
  }

  ghost function InFlight(r: Ring): set<Slot>
    requires r.Valid()
  {
    set slot: Slot | 0 <= slot < 16 && Past(r.tail, slot) < r.inflight
  }

  /** Completions name their slots themselves, so what counts is whether the in-flight slots still are the ones
      just before `head`. After such an exit they are exactly if nothing was in flight. */
  lemma MisalignmentHarmlessWhenIdle(r: Ring, seqNo: u32)
    requires r.Valid() && r.Aligned() && r.inflight < DEPTH
    ensures var left := Abandoned(Reserved(r, seqNo));
            left.Valid()
            && ((exists t: Slot :: left.(tail := t).Aligned() && InFlight(left.(tail := t)) == InFlight(r))
                <==> r.inflight == 0)
  {
    var left := Abandoned(Reserved(r, seqNo));
    if r.inflight == 0 {
      var ring := left.(tail := left.head);
      assert ring.Aligned() && InFlight(ring) == {} == InFlight(r);
    } else {
      forall t: Slot | left.(tail := t).Aligned() ensures r.tail !in InFlight(left.(tail := t)) {
        assert t == Wrap(r.tail + 1);
        assert Past(t, r.tail) == 15;
      }
      assert Past(r.tail, r.tail) == 0 && r.tail in InFlight(r);
    }
  }

  /** Submissions accepted one after another, with no completion in between. */
  function ReservedAll(r: Ring, seqNos: seq<u32>): (n: Ring)
    requires |r.slotSeq| == DEPTH
    ensures |n.slotSeq| == DEPTH
    decreases |seqNos|
  {
    if seqNos == [] then r else ReservedAll(Reserved(r, seqNos[0]), seqNos[1..])
  }

  lemma {:induction false} ReservedSlot(r: Ring, seqNos: seq<u32>, slot: Slot)
    requires r.Valid() && r.inflight + |seqNos| <= DEPTH
    ensures ReservedAll(r, seqNos).inflight == r.inflight + |seqNos|
    ensures var m := Past(r.head, slot);
            ReservedAll(r, seqNos).slotSeq[slot] == if m < |seqNos| then seqNos[m] else r.slotSeq[slot]
    decreases |seqNos|
  {
    if seqNos == [] {
    } else {
      ReservedSlot(Reserved(r, seqNos[0]), seqNos[1..], slot);
    }
  }

  /** With `k` transfers in flight at such an exit, the ring then takes `16 - k` more submissions before any
      completion. Their numbers overwrite one of an in-flight slot exactly if `k > 0`: that of the oldest, which
      is then reported done under the last of the new numbers. */
  lemma AbandonedSlotOverwrites(r: Ring, seqNo: u32, seqNos: seq<u32>)
    requires r.Valid() && r.Aligned() && r.inflight < DEPTH && |seqNos| == DEPTH - r.inflight
    ensures var left := Abandoned(Reserved(r, seqNo));
            var full := ReservedAll(left, seqNos);
            && full.inflight == DEPTH
            && (r.inflight > 0 ==> full.slotSeq[r.tail] == seqNos[|seqNos| - 1])
            && (forall slot :: slot in InFlight(r) && slot != r.tail ==> full.slotSeq[slot] == r.slotSeq[slot])
            && (r.tail in InFlight(r) <==> r.inflight > 0)
  {
    var left := Abandoned(Reserved(r, seqNo));
    forall slot: Slot | slot in InFlight(r) && slot != r.tail
      ensures ReservedAll(left, seqNos).slotSeq[slot] == r.slotSeq[slot]
    {
      ReservedSlot(left, seqNos, slot);
    }
    ReservedSlot(left, seqNos, r.tail);
    assert Past(r.tail, r.tail) == 0;
  }
}
