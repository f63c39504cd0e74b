/** The four HID OUT buffers: a lock-free bitmask allocator used by any number of threads, with
    releases from error paths and from USB completions. */
module HidOutSlots {

  const SLOTS := 4

  // ----- the mask -----

  /** `1u << i` */
  function SlotBit(i: nat): bv32
    requires i < SLOTS
  {
    if i == 0 then 1 else if i == 1 then 2 else if i == 2 then 4 else 8
  }

  /** Bit set means free. */
  predicate Free(mask: bv32, i: nat)
    requires i < SLOTS
  {
    mask & SlotBit(i) != 0
  }

  /** `cur & (-cur)` in two's complement. */
  function LowestBit(cur: bv32): bv32 {
    cur & (0 - cur)
  }

  /** Count of trailing zeros of a slot bit. */
  function SlotOf(bit: bv32): (slot: nat)
    ensures slot < SLOTS
  {
    if bit == 1 then 0 else if bit == 2 then 1 else if bit == 4 then 2 else 3
  }

  function Taken(cur: bv32): bv32 {
    cur & !LowestBit(cur)
  }

  function Released(mask: bv32, slot: nat): bv32
    requires slot < SLOTS
  {
    mask | SlotBit(slot)
  }

  /** A claim takes the lowest free slot of the mask it replaces and no other. */
  lemma ClaimTakesLowest(cur: bv32)
    requires 0 < cur < 16
    ensures var slot := SlotOf(LowestBit(cur));
            && slot < SLOTS && Free(cur, slot) && Taken(cur) < 16
            && (forall j: nat :: j < slot ==> !Free(cur, j))
            && (forall j: nat :: j < SLOTS ==> (Free(Taken(cur), j) <==> Free(cur, j) && j != slot))
  {
    var bit := LowestBit(cur);
    assert bit == 1 || bit == 2 || bit == 4 || bit == 8;
    assert bit == 1 ==> cur & 1 != 0;
    assert bit == 2 ==> cur & 1 == 0 && cur & 2 != 0;
    assert bit == 4 ==> cur & 3 == 0 && cur & 4 != 0;
    assert bit == 8 ==> cur == 8;
  }

  lemma ReleaseFrees(mask: bv32, slot: nat)
    requires mask < 16 && slot < SLOTS
    ensures Released(mask, slot) < 16
    ensures forall j: nat :: j < SLOTS ==> (Free(Released(mask, slot), j) <==> Free(mask, j) || j == slot)
  {
  }

  lemma ZeroMeansNoneFree(mask: bv32)
    requires mask < 16
    ensures mask == 0 <==> forall j: nat :: j < SLOTS ==> !Free(mask, j)
  {
    assert mask != 0 ==> Free(mask, 0) || Free(mask, 1) || Free(mask, 2) || Free(mask, 3);
  }

  /** The shared mask as one thread alone drives it; `failures` exchanges fail spuriously first. */
  class OutSlots {
    var mask: bv32

    constructor ()
      ensures mask == 15
    {
      mask := 15;
    }

    method Claim(failures: nat) returns (slot: int)
      requires mask < 16
      modifies this
      ensures mask < 16
      ensures old(mask) == 0 ==> slot == -1 && mask == 0
      ensures old(mask) != 0 ==>
                && 0 <= slot < SLOTS && Free(old(mask), slot)
                && (forall j: nat :: j < slot ==> !Free(old(mask), j))
                && (forall j: nat :: j < SLOTS ==> (Free(mask, j) <==> Free(old(mask), j) && j != slot))
    {
      var cur := mask;
      var left := failures;
      while cur != 0
        invariant cur == mask == old(mask)
        decreases left
      {
        var bit := LowestBit(cur);
        var next := cur & !bit;
        if left == 0 {
          ClaimTakesLowest(cur);
          mask := next;
          return SlotOf(bit);
        }
        cur := mask;
        left := left - 1;
      }
      return -1;
    }

    method Release(slot: nat)
      requires mask < 16 && slot < SLOTS
      modifies this
      ensures mask < 16
      ensures forall j: nat :: j < SLOTS ==> (Free(mask, j) <==> Free(old(mask), j) || j == slot)
    {
      ReleaseFrees(mask, slot);
      mask := mask | SlotBit(slot);
    }
  }

  // ----- threads, the pipe and the shared mask -----

  /** Where a thread inside `SubmitHidOut` stands. `seen` records which slots were held when `cur` was read. */
  datatype Phase = Loaded(cur: bv32, seen: set<nat>) | Claimed(slot: nat)

  /** `pipe` holds the slots whose transfer the pipe has accepted and not completed. `claims` and
      `releases` count, per slot, the successful claims and the releases so far. */
  datatype System = System(
    mask: bv32, threads: map<nat, Phase>, pipe: set<nat>, claims: seq<nat>, releases: seq<nat>)

  datatype Step =
    | Load(t: nat)
    | Swap(t: nat)
    | SwapFails(t: nat)
    | GiveUp(t: nat)
    | ErrorPath(t: nat)
    | Submitted(t: nat)
    | Completion(slot: nat)

  ghost predicate ClaimedBy(s: System, t: nat, slot: nat) {
    t in s.threads && s.threads[t] == Claimed(slot)
  }

  ghost predicate Held(s: System, slot: nat) {
    slot in s.pipe || exists t :: ClaimedBy(s, t, slot)
  }

  ghost function HeldSlots(s: System): set<nat> {
    set slot: nat | slot < SLOTS && Held(s, slot)
  }

  ghost predicate IsLoaded(s: System, t: nat) {
    t in s.threads && s.threads[t].Loaded?
  }

  ghost predicate IsClaimed(s: System, t: nat) {
    t in s.threads && s.threads[t].Claimed? && s.threads[t].slot < SLOTS
  }

  /** The exchange is weak: it may fail even when the mask is the expected one. */
  ghost predicate Enabled(s: System, step: Step) {
    && |s.claims| == SLOTS && |s.releases| == SLOTS
    && match step
       case Load(t) => t !in s.threads
       case Swap(t) => IsLoaded(s, t) && s.threads[t].cur != 0 && s.mask == s.threads[t].cur
       case SwapFails(t) => IsLoaded(s, t) && s.threads[t].cur != 0
       case GiveUp(t) => IsLoaded(s, t) && s.threads[t].cur == 0
       case ErrorPath(t) => IsClaimed(s, t)
       case Submitted(t) => IsClaimed(s, t)
       case Completion(slot) => slot in s.pipe && slot < SLOTS
  }

  ghost function Bump(counts: seq<nat>, slot: nat): seq<nat>
    requires slot < |counts|
  {
    counts[slot := counts[slot] + 1]
  }

  ghost function Apply(s: System, step: Step): System
    requires Enabled(s, step)
  {
    match step
    case Load(t) => s.(threads := s.threads[t := Loaded(s.mask, HeldSlots(s))])
    case Swap(t) =>
      var slot := SlotOf(LowestBit(s.mask));
      s.(mask := Taken(s.mask), threads := s.threads[t := Claimed(slot)], claims := Bump(s.claims, slot))
    case SwapFails(t) => s.(threads := s.threads[t := Loaded(s.mask, HeldSlots(s))])
    case GiveUp(t) => s.(threads := s.threads - {t})
    case ErrorPath(t) =>
      var slot := s.threads[t].slot;
      s.(mask := Released(s.mask, slot), threads := s.threads - {t}, releases := Bump(s.releases, slot))
    case Submitted(t) => s.(threads := s.threads - {t}, pipe := s.pipe + {s.threads[t].slot})
    case Completion(slot) =>
      s.(mask := Released(s.mask, slot), pipe := s.pipe - {slot}, releases := Bump(s.releases, slot))
  }

  ghost predicate MaskIsComplement(mask: bv32, held: set<nat>) {
    mask < 16 && forall i: nat :: i < SLOTS ==> (Free(mask, i) <==> i !in held)
  }

  ghost predicate Inv(s: System) {
    && |s.claims| == SLOTS && |s.releases| == SLOTS
    && MaskIsComplement(s.mask, HeldSlots(s))
    && (forall slot :: slot in s.pipe ==> slot < SLOTS)
    && (forall t, slot: nat :: ClaimedBy(s, t, slot) ==> slot < SLOTS && slot !in s.pipe)
    && (forall t, u, slot :: ClaimedBy(s, t, slot) && ClaimedBy(s, u, slot) ==> t == u)
    && (forall t :: t in s.threads && s.threads[t].Loaded? ==>
          MaskIsComplement(s.threads[t].cur, s.threads[t].seen))
    && (forall i: nat :: i < SLOTS ==> s.claims[i] == s.releases[i] + if i in HeldSlots(s) then 1 else 0)
  }

  ghost function Start(): System {
    System(15, map[], {}, [0, 0, 0, 0], [0, 0, 0, 0])
  }

  lemma StartInv()
    ensures Inv(Start())
  {
    assert forall i: nat :: i < SLOTS ==> Free(15, i);
    assert HeldSlots(Start()) == {};
  }

  lemma ReadKeepsInv(s: System, t: nat)
    requires Inv(s) && (t in s.threads ==> s.threads[t].Loaded?)
    ensures Inv(s.(threads := s.threads[t := Loaded(s.mask, HeldSlots(s))]))
  {
    var n := s.(threads := s.threads[t := Loaded(s.mask, HeldSlots(s))]);
    assert forall u, slot :: ClaimedBy(n, u, slot) <==> ClaimedBy(s, u, slot);
    assert HeldSlots(n) == HeldSlots(s);
  }

  lemma SwapKeepsInv(s: System, t: nat)
    requires Inv(s) && Enabled(s, Swap(t))
    ensures Inv(Apply(s, Swap(t)))
    ensures HeldSlots(Apply(s, Swap(t))) == HeldSlots(s) + {SlotOf(LowestBit(s.mask))}
  {
    var n := Apply(s, Swap(t));
    var slot := SlotOf(LowestBit(s.mask));
    ClaimTakesLowest(s.mask);
    assert slot !in HeldSlots(s) && !Held(s, slot);
    assert forall u, k :: ClaimedBy(n, u, k) <==> ClaimedBy(s, u, k) || (u == t && k == slot);
    assert ClaimedBy(n, t, slot);
    assert HeldSlots(n) == HeldSlots(s) + {slot};
  }

  lemma GiveUpKeepsInv(s: System, t: nat)
    requires Inv(s) && Enabled(s, GiveUp(t))
    ensures Inv(Apply(s, GiveUp(t)))
  {
    var n := Apply(s, GiveUp(t));
    assert forall u, slot :: ClaimedBy(n, u, slot) <==> ClaimedBy(s, u, slot);
    assert HeldSlots(n) == HeldSlots(s);
  }

  lemma ErrorPathKeepsInv(s: System, t: nat)
    requires Inv(s) && Enabled(s, ErrorPath(t))
    ensures Inv(Apply(s, ErrorPath(t)))
    ensures HeldSlots(Apply(s, ErrorPath(t))) == HeldSlots(s) - {s.threads[t].slot}
  {
    var n := Apply(s, ErrorPath(t));
    var slot := s.threads[t].slot;
    assert ClaimedBy(s, t, slot);
    ReleaseFrees(s.mask, slot);
    assert forall u, k :: ClaimedBy(n, u, k) <==> ClaimedBy(s, u, k) && u != t;
    assert HeldSlots(n) == HeldSlots(s) - {slot};
  }

  lemma SubmittedKeepsInv(s: System, t: nat)
    requires Inv(s) && Enabled(s, Submitted(t))
    ensures Inv(Apply(s, Submitted(t)))
    ensures HeldSlots(Apply(s, Submitted(t))) == HeldSlots(s)
  {
    var n := Apply(s, Submitted(t));
    var slot := s.threads[t].slot;
    assert ClaimedBy(s, t, slot);
    assert forall u, k :: ClaimedBy(n, u, k) <==> ClaimedBy(s, u, k) && u != t;
    assert HeldSlots(n) == HeldSlots(s);
  }

  lemma CompletionKeepsInv(s: System, slot: nat)
    requires Inv(s) && Enabled(s, Completion(slot))
    ensures Inv(Apply(s, Completion(slot)))
    ensures HeldSlots(Apply(s, Completion(slot))) == HeldSlots(s) - {slot}
  {
    var n := Apply(s, Completion(slot));
    ReleaseFrees(s.mask, slot);
    assert forall u, k :: ClaimedBy(n, u, k) <==> ClaimedBy(s, u, k);
    assert HeldSlots(n) == HeldSlots(s) - {slot};
  }

  lemma StepKeepsInv(s: System, step: Step)
    requires Inv(s) && Enabled(s, step)
    ensures Inv(Apply(s, step))
  {
    match step {
      case Load(t) => ReadKeepsInv(s, t);
      case Swap(t) => SwapKeepsInv(s, t);
      case SwapFails(t) => ReadKeepsInv(s, t);
      case GiveUp(t) => GiveUpKeepsInv(s, t);
      case ErrorPath(t) => ErrorPathKeepsInv(s, t);
      case Submitted(t) => SubmittedKeepsInv(s, t);
      case Completion(slot) => CompletionKeepsInv(s, slot);
    }
  }

  ghost predicate Runnable(s: System, steps: seq<Step>)
    decreases |steps|
  {
    steps == [] || (Enabled(s, steps[0]) && Runnable(Apply(s, steps[0]), steps[1..]))
  }

  ghost function After(s: System, steps: seq<Step>): System
    requires Runnable(s, steps)
    decreases |steps|
  {
    if steps == [] then s else After(Apply(s, steps[0]), steps[1..])
  }

  /** On every interleaving of any number of threads and completions: the mask is the exact complement
      of the held slots, no slot has two holders, and every slot has been released once per claim,
      except one claim still open on each held slot. */
  lemma {:induction false} EveryRunKeepsInv(s: System, steps: seq<Step>)
    requires Inv(s) && Runnable(s, steps)
    ensures Inv(After(s, steps))
    decreases |steps|
  {
    if steps == [] {
    } else {
      StepKeepsInv(s, steps[0]);
      EveryRunKeepsInv(Apply(s, steps[0]), steps[1..]);
    }
  }

  /** From the start, on every interleaving: a slot is free in the mask exactly if neither a thread nor the
      pipe holds it, it never has two holders, and it was claimed as often as released, plus once if held. */
  lemma MaskTracksHolders(steps: seq<Step>, slot: nat)
    requires Runnable(Start(), steps) && slot < SLOTS
    ensures var s := After(Start(), steps);
            && (Free(s.mask, slot) <==> !Held(s, slot))
            && (forall t, u :: ClaimedBy(s, t, slot) && ClaimedBy(s, u, slot) ==> t == u)
            && (forall t :: ClaimedBy(s, t, slot) ==> slot !in s.pipe)
            && |s.claims| == |s.releases| == SLOTS
            && s.claims[slot] == s.releases[slot] + if Held(s, slot) then 1 else 0
  {
    StartInv();
    EveryRunKeepsInv(Start(), steps);
    var s := After(Start(), steps);
    assert slot in HeldSlots(s) <==> Held(s, slot);
  }

  /** A successful exchange claims the lowest slot nobody holds at that moment, whatever happened
      between reading the mask and replacing it. */
  lemma SwapClaimsLowestFree(s: System, t: nat)
    requires Inv(s) && Enabled(s, Swap(t))
    ensures var slot := SlotOf(LowestBit(s.mask));
            && !Held(s, slot) && (forall j: nat :: j < slot ==> Held(s, j))
            && ClaimedBy(Apply(s, Swap(t)), t, slot)
  {
    ClaimTakesLowest(s.mask);
    forall j: nat | j < SlotOf(LowestBit(s.mask)) ensures Held(s, j) {
      assert !Free(s.mask, j);
      assert j in HeldSlots(s);
    }
    assert SlotOf(LowestBit(s.mask)) !in HeldSlots(s);
  }

  /** A thread reports the ring full only after having read a mask while all four slots were held. */
  lemma FullWasSeen(s: System, t: nat)
    requires Inv(s) && Enabled(s, GiveUp(t))
    ensures s.threads[t].seen >= {0, 1, 2, 3}
  {
    ZeroMeansNoneFree(s.threads[t].cur);
  }

  /** With no thread inside and nothing in the pipe, every slot is free again and all claims are paid back. */
  lemma QuiescentIsFull(steps: seq<Step>)
    requires Runnable(Start(), steps)
    requires After(Start(), steps).threads == map[] && After(Start(), steps).pipe == {}
    ensures var s := After(Start(), steps); s.mask == 15 && s.claims == s.releases
  {
    StartInv();
    EveryRunKeepsInv(Start(), steps);
    var s := After(Start(), steps);
    assert HeldSlots(s) == {};
    assert Free(s.mask, 0) && Free(s.mask, 1) && Free(s.mask, 2) && Free(s.mask, 3);
    AllFreeMask(s.mask);
  }

  lemma AllFreeMask(mask: bv32)
    requires mask < 16 && Free(mask, 0) && Free(mask, 1) && Free(mask, 2) && Free(mask, 3)
    ensures mask == 15
  {
  }
}
