/** Concurrent request/reply matching with one plugin host, and one host per plugin bundle. */
module Session {
  import opened Words

  /** A message line; what it says is not looked at. */
  datatype Envelope = Envelope(id: u64, content: nat)

  const ID_COUNT := 0x1_0000_0000_0000_0000

  /** `fetch_add` on a 64-bit counter. */
  function NextId(id: u64): u64 {
    if id == ID_COUNT - 1 then 0 else id + 1
  }

  /** What a message from the host does: an event, a reply for the caller registered under its id, or nothing. */
  datatype Route = Event | Wake(caller: nat) | Drop

  function RouteOf(pending: map<u64, nat>, env: Envelope): Route {
    if env.id == 0 then Event else if env.id in pending then Wake(pending[env.id]) else Drop
  }

  function PendingAfter(pending: map<u64, nat>, env: Envelope): map<u64, nat> {
    if env.id == 0 then pending else pending - {env.id}
  }

  /** The shared fields; each method body runs under one lock or as one atomic operation. */
  class PluginSession {
    var nextId: u64
    var pending: map<u64, nat>
    var events: seq<Envelope>

    constructor ()
      ensures nextId == 1 && pending == map[] && events == []
    {
      nextId, pending, events := 1, map[], [];
    }

    method Allot() returns (id: u64)
      modifies this`nextId
      ensures id == old(nextId) && nextId == NextId(old(nextId))
    {
      id := nextId;
      nextId := NextId(nextId);
    }

    method Register(id: u64, caller: nat)
      modifies this`pending
      ensures pending == old(pending)[id := caller]
    {
      pending := pending[id := caller];
    }

    method Dispatch(env: Envelope) returns (woken: Option<nat>)
      modifies this`pending, this`events
      ensures pending == PendingAfter(old(pending), env)
      ensures woken == (match RouteOf(old(pending), env) case Wake(c) => Some(c) case _ => None)
      ensures events == if env.id == 0 then old(events) + [env] else old(events)
    {
      woken := None;
      if env.id == 0 {
        events := events + [env];
        return;
      }
      if env.id in pending {
        woken := Some(pending[env.id]);
        pending := pending - {env.id};
      } else {
        assert pending - {env.id} == pending;
      }
    }
  }

  // ----- callers and reader interleaved -----

  /** Where a call stands. A call given up by its caller is `Gone`, whatever it had done. */
  datatype Phase = Allotted | Inserted | Waiting | Failed | Gone | Done(reply: Envelope)

  /** `slot` is the one-shot channel the reader puts the reply in; `since` the number of messages read when
      the call was registered. */
  datatype Call = Call(id: u64, phase: Phase, inserted: bool, since: nat, slot: Option<Envelope>)

  datatype System = System(
    nextId: u64, started: nat, calls: map<nat, Call>, pending: map<u64, nat>,
    log: seq<Envelope>, events: seq<Envelope>, open: bool)

  datatype Step =
    | Begin(c: nat) | Insert(c: nat) | Write(c: nat) | WriteFails(c: nat) | Return(c: nat) | Abandon(c: nat)
    | Receive(env: Envelope) | Close

  predicate InPhase(s: System, c: nat, phase: Phase) {
    c in s.calls && s.calls[c].phase == phase
  }

  /** The receiving end of the call's channel still exists. */
  predicate Listening(call: Call) {
    call.phase == Inserted || call.phase == Waiting
  }

  /** Ids are allotted without wrapping; the host may send anything while its output is open. */
  predicate Enabled(s: System, step: Step) {
    match step
    case Begin(c) => c !in s.calls && s.started < ID_COUNT - 1
    case Insert(c) => InPhase(s, c, Allotted)
    case Write(c) => InPhase(s, c, Inserted)
    case WriteFails(c) => InPhase(s, c, Inserted)
    case Return(c) => InPhase(s, c, Waiting) && s.calls[c].slot.Some?
    case Abandon(c) => c in s.calls && (s.calls[c].phase == Allotted || Listening(s.calls[c]))
    case Receive(_) => s.open
    case Close => s.open
  }

  function Moved(s: System, c: nat, phase: Phase): System
    requires c in s.calls
  {
    s.(calls := s.calls[c := s.calls[c].(phase := phase)])
  }

  function Delivered(calls: map<nat, Call>, route: Route, env: Envelope): map<nat, Call> {
    if route.Wake? && route.caller in calls && Listening(calls[route.caller])
    then calls[route.caller := calls[route.caller].(slot := Some(env))]
    else calls
  }

  function Apply(s: System, step: Step): System
    requires Enabled(s, step)
  {
    match step
    case Begin(c) =>
      s.(nextId := NextId(s.nextId), started := s.started + 1,
         calls := s.calls[c := Call(s.nextId, Allotted, false, 0, None)])
    case Insert(c) =>
      s.(pending := s.pending[s.calls[c].id := c],
         calls := s.calls[c := s.calls[c].(phase := Inserted, inserted := true, since := |s.log|)])
    case Write(c) => Moved(s, c, Waiting)
    case WriteFails(c) => Moved(s, c, Failed)
    case Return(c) => Moved(s, c, Done(s.calls[c].slot.value))
    case Abandon(c) => Moved(s, c, Gone)
    case Receive(env) =>
      s.(log := s.log + [env],
         events := if env.id == 0 then s.events + [env] else s.events,
         pending := PendingAfter(s.pending, env),
         calls := Delivered(s.calls, RouteOf(s.pending, env), env))
    case Close => s.(open := false)
  }

  function Start(): System {
    System(1, 0, map[], map[], [], [], true)
  }

  // ----- what the matching promises -----

  /** The first message with the id among those read from `from` on. */
  function FirstReply(log: seq<Envelope>, from: nat, id: u64): Option<Envelope> {
    if |log| <= from then None
    else
      var before, last := log[..|log| - 1], log[|log| - 1];
      var r := FirstReply(before, from, id);
      if r.Some? then r else if last.id == id then Some(last) else None
  }

  lemma FirstReplyIs(log: seq<Envelope>, from: nat, id: u64)
    ensures var r := FirstReply(log, from, id);
            && (r.None? ==> forall k :: from <= k < |log| ==> log[k].id != id)
            && (r.Some? ==>
                  exists k :: from <= k < |log| && log[k] == r.value && r.value.id == id
                              && forall j :: from <= j < k ==> log[j].id != id)
  {
    if |log| > from {
      var n := |log| - 1;
      FirstReplyIs(log[..n], from, id);
      var before := FirstReply(log[..n], from, id);
      if before.Some? {
        var k :| from <= k < n && log[..n][k] == before.value && forall j :: from <= j < k ==> log[..n][j].id != id;
        assert log[k] == before.value && forall j :: from <= j < k ==> log[j] == log[..n][j];
      } else {
        assert forall k :: from <= k < n ==> log[k] == log[..n][k];
        if log[n].id == id { assert log[n] == FirstReply(log, from, id).value; }
      }
    }
  }

  function EventsOf(log: seq<Envelope>): seq<Envelope> {
    if log == [] then []
    else EventsOf(log[..|log| - 1]) + if log[|log| - 1].id == 0 then [log[|log| - 1]] else []
  }

  function ReplyTo(s: System, c: nat): Option<Envelope>
    requires c in s.calls
  {
    FirstReply(s.log, s.calls[c].since, s.calls[c].id)
  }

  /** A call is registered until its first reply, which is what it finds in its channel and returns. */
  predicate CallOk(s: System, c: nat)
    requires c in s.calls
  {
    var call := s.calls[c];
    && 1 <= call.id <= s.started && call.since <= |s.log|
    && (call.inserted && ReplyTo(s, c).None? ==> call.id in s.pending && s.pending[call.id] == c)
    && match call.phase
       case Allotted => !call.inserted && call.slot.None?
       case Inserted => call.inserted && call.slot == ReplyTo(s, c)
       case Waiting => call.inserted && call.slot == ReplyTo(s, c)
       case Failed => call.inserted
       case Gone => true
       case Done(reply) => call.inserted && ReplyTo(s, c) == Some(reply)
  }

  predicate EntryOk(s: System, id: u64)
    requires id in s.pending
  {
    && s.pending[id] in s.calls && s.calls[s.pending[id]].id == id
    && s.calls[s.pending[id]].inserted && ReplyTo(s, s.pending[id]).None?
  }

  predicate Inv(s: System) {
    && s.started < ID_COUNT && s.nextId == (s.started + 1) % 0x1_0000_0000_0000_0000
    && (forall c :: c in s.calls ==> CallOk(s, c))
    && (forall c, d :: c in s.calls && d in s.calls && s.calls[c].id == s.calls[d].id ==> c == d)
    && (forall id :: id in s.pending ==> EntryOk(s, id))
    && s.events == EventsOf(s.log)
  }

  lemma BeginKeepsInv(s: System, c: nat)
    requires Inv(s) && Enabled(s, Begin(c))
    ensures Inv(Apply(s, Begin(c)))
  {
    var n := Apply(s, Begin(c));
    forall d | d in n.calls ensures CallOk(n, d) { if d != c { assert CallOk(s, d); } }
    forall id | id in n.pending ensures EntryOk(n, id) { assert EntryOk(s, id); }
  }

  lemma InsertKeepsInv(s: System, c: nat)
    requires Inv(s) && Enabled(s, Insert(c))
    ensures Inv(Apply(s, Insert(c)))
  {
    var n := Apply(s, Insert(c));
    assert CallOk(s, c);
    forall d | d in n.calls ensures CallOk(n, d) { if d != c { assert CallOk(s, d); } }
    forall id | id in n.pending ensures EntryOk(n, id) { if id != s.calls[c].id { assert EntryOk(s, id); } }
  }

  /** Steps of one call after its registration: only its phase changes. */
  lemma MovedKeepsInv(s: System, c: nat, phase: Phase)
    requires Inv(s) && c in s.calls && CallOk(Moved(s, c, phase), c)
    ensures Inv(Moved(s, c, phase))
  {
    var n := Moved(s, c, phase);
    forall d | d in n.calls ensures CallOk(n, d) { if d != c { assert CallOk(s, d); } }
    forall id | id in n.pending ensures EntryOk(n, id) { assert EntryOk(s, id); }
  }

  lemma ReplyGrows(log: seq<Envelope>, env: Envelope, from: nat, id: u64)
    requires from <= |log|
    ensures FirstReply(log + [env], from, id)
         == var r := FirstReply(log, from, id); if r.Some? then r else if env.id == id then Some(env) else None
  {
    assert (log + [env])[..|log|] == log;
  }

  lemma ReceivedCallOk(s: System, env: Envelope, c: nat)
    requires Inv(s) && Enabled(s, Receive(env)) && c in s.calls
    ensures CallOk(Apply(s, Receive(env)), c)
  {
    assert CallOk(s, c);
    ReplyGrows(s.log, env, s.calls[c].since, s.calls[c].id);
    if env.id in s.pending { assert EntryOk(s, env.id); }
  }

  lemma ReceiveKeepsInv(s: System, env: Envelope)
    requires Inv(s) && Enabled(s, Receive(env))
    ensures Inv(Apply(s, Receive(env)))
  {
    var n := Apply(s, Receive(env));
    forall c | c in n.calls ensures CallOk(n, c) { ReceivedCallOk(s, env, c); }
    forall id | id in n.pending ensures EntryOk(n, id) {
      assert EntryOk(s, id);
      assert CallOk(s, s.pending[id]);
      ReplyGrows(s.log, env, s.calls[s.pending[id]].since, id);
    }
    assert (s.log + [env])[..|s.log|] == s.log;
  }

  lemma StepKeepsInv(s: System, step: Step)
    requires Inv(s) && Enabled(s, step)
    ensures Inv(Apply(s, step))
  {
    match step {
      case Begin(c) => BeginKeepsInv(s, c);
      case Insert(c) => InsertKeepsInv(s, c);
      case Write(c) => assert CallOk(s, c); MovedKeepsInv(s, c, Waiting);
      case WriteFails(c) => assert CallOk(s, c); MovedKeepsInv(s, c, Failed);
      case Return(c) => assert CallOk(s, c); MovedKeepsInv(s, c, Done(s.calls[c].slot.value));
      case Abandon(c) => assert CallOk(s, c); MovedKeepsInv(s, c, Gone);
      case Receive(env) => ReceiveKeepsInv(s, env);
      case Close =>
        forall c | c in s.calls ensures CallOk(Apply(s, Close), c) { assert CallOk(s, c); }
        forall id | id in s.pending ensures EntryOk(Apply(s, Close), id) { assert EntryOk(s, id); }
    }
  }

  predicate Runnable(s: System, steps: seq<Step>)
    decreases |steps|
  {
    steps == [] || (Enabled(s, steps[0]) && Runnable(Apply(s, steps[0]), steps[1..]))
  }

  function After(s: System, steps: seq<Step>): System
    requires Runnable(s, steps)
    decreases |steps|
  {
    if steps == [] then s else After(Apply(s, steps[0]), steps[1..])
  }

  lemma {:induction false} EveryRunKeepsInv(s: System, steps: seq<Step>)
    requires Inv(s) && Runnable(s, steps)
    ensures Inv(After(s, steps))
    decreases |steps|
  {
    if steps == [] {
    } else {
      StepKeepsInv(s, steps[0]);
      EveryRunKeepsInv(Apply(s, steps[0]), steps[1..]);
    }
  }

  lemma StartInv()
    ensures Inv(Start())
  {
  }

  /** Whatever a call returns is the first message with its id read since it was registered; no two calls
      of a run have the same id and none has id zero. */
  lemma ReturnsFirstReply(steps: seq<Step>, c: nat)
    requires Runnable(Start(), steps) && c in After(Start(), steps).calls
    ensures var s := After(Start(), steps);
            var call := s.calls[c];
            && call.id != 0
            && (forall d :: d in s.calls && d != c ==> s.calls[d].id != call.id)
            && (call.phase.Done? ==>
                  exists k :: call.since <= k < |s.log| && s.log[k] == call.phase.reply && s.log[k].id == call.id
                              && forall j :: call.since <= j < k ==> s.log[j].id != call.id)
  {
    StartInv();
    EveryRunKeepsInv(Start(), steps);
    var s := After(Start(), steps);
    assert CallOk(s, c);
    FirstReplyIs(s.log, s.calls[c].since, s.calls[c].id);
  }

  ghost predicate Unanswered(s: System, c: nat, id: u64) {
    c in s.calls && s.calls[c].id == id && s.calls[c].inserted && ReplyTo(s, c).None?
  }

  /** At every point of every run the registered ids are exactly those of calls inserted and not yet
      answered, and the events passed on are exactly the messages read with id zero, in order. */
  lemma PendingIsUnanswered(steps: seq<Step>, id: u64)
    requires Runnable(Start(), steps)
    ensures var s := After(Start(), steps);
            && (id in s.pending <==> exists c :: Unanswered(s, c, id))
            && (id in s.pending ==> Unanswered(s, s.pending[id], id))
            && s.events == EventsOf(s.log)
  {
    StartInv();
    EveryRunKeepsInv(Start(), steps);
    var s := After(Start(), steps);
    if id in s.pending {
      assert EntryOk(s, id);
      assert Unanswered(s, s.pending[id], id);
    }
    forall c | Unanswered(s, c, id) ensures id in s.pending { assert CallOk(s, c); }
  }

  /** The first reply to a registered call finds its entry, reaches the caller if it still listens, leaves
      every other call as it was, and makes every later reply with that id go nowhere. */
  lemma ReplyFindsCaller(s: System, c: nat, env: Envelope)
    requires Inv(s) && Enabled(s, Receive(env)) && c in s.calls && s.calls[c].inserted
    requires ReplyTo(s, c).None? && env.id == s.calls[c].id
    ensures RouteOf(s.pending, env) == Wake(c)
    ensures var n := Apply(s, Receive(env));
            && n.calls == (if Listening(s.calls[c]) then s.calls[c := s.calls[c].(slot := Some(env))] else s.calls)
            && n.pending == s.pending - {env.id} && n.events == s.events
            && forall later: Envelope :: later.id == env.id ==> RouteOf(n.pending, later) == Drop
  {
    assert CallOk(s, c);
  }

  /** A message nobody waits for, in particular an event, resolves no call. */
  lemma OthersResolveNothing(s: System, env: Envelope)
    requires Inv(s) && Enabled(s, Receive(env))
    requires forall c :: c in s.calls && s.calls[c].inserted && ReplyTo(s, c).None? ==> s.calls[c].id != env.id
    ensures Apply(s, Receive(env)).calls == s.calls && Apply(s, Receive(env)).pending == s.pending
    ensures env.id == 0 <==> Apply(s, Receive(env)).events == s.events + [env]
  {
    assert env.id in s.pending ==> EntryOk(s, env.id);
    assert |s.events + [env]| == |s.events| + 1;
  }

  /** How often the reader wakes a call during a run. */
  function Wakes(s: System, steps: seq<Step>, c: nat): nat
    requires Runnable(s, steps)
    decreases |steps|
  {
    if steps == [] then 0
    else
      (if steps[0].Receive? && RouteOf(s.pending, steps[0].env) == Wake(c) then 1 else 0)
      + Wakes(Apply(s, steps[0]), steps[1..], c)
  }

  function Answered(s: System, c: nat): nat {
    if c in s.calls && s.calls[c].inserted && ReplyTo(s, c).Some? then 1 else 0
  }

  lemma WakeAnswers(s: System, env: Envelope, c: nat)
    requires Inv(s) && Enabled(s, Receive(env))
    ensures Answered(Apply(s, Receive(env)), c)
         == Answered(s, c) + if RouteOf(s.pending, env) == Wake(c) then 1 else 0
  {
    if env.id in s.pending { assert EntryOk(s, env.id); }
    if c in s.calls {
      assert CallOk(s, c);
      ReplyGrows(s.log, env, s.calls[c].since, s.calls[c].id);
    }
  }

  lemma OtherStepsAnswerNothing(s: System, step: Step, c: nat)
    requires Inv(s) && Enabled(s, step) && !step.Receive?
    ensures Answered(Apply(s, step), c) == Answered(s, c)
  {
    if c in s.calls { assert CallOk(s, c); }
  }

  /** Over any run the reader wakes a call once if its reply has come and never otherwise. */
  lemma {:induction false} WokenOnce(s: System, steps: seq<Step>, c: nat)
    requires Inv(s) && Runnable(s, steps)
    ensures Answered(After(s, steps), c) == Answered(s, c) + Wakes(s, steps, c)
    decreases |steps|
  {
    if steps == [] {
    } else {
      StepKeepsInv(s, steps[0]);
      if steps[0].Receive? { WakeAnswers(s, steps[0].env, c); } else { OtherStepsAnswerNothing(s, steps[0], c); }
      WokenOnce(Apply(s, steps[0]), steps[1..], c);
    }
  }

  // ----- after the host's output has ended -----

  ghost predicate Returned(s: System, c: nat) {
    c in s.calls && s.calls[c].phase.Done?
  }

  /** The call has returned a reply, or its reply has come and it still listens. */
  ghost predicate Replied(s: System, c: nat) {
    c in s.calls && (s.calls[c].phase.Done? || (Listening(s.calls[c]) && ReplyTo(s, c).Some?))
  }

  /** Some run from here ends with the call having returned a reply. */
  ghost predicate CanReturn(s: System, c: nat) {
    exists steps: seq<Step> :: Runnable(s, steps) && Returned(After(s, steps), c)
  }

  /** A call that listens without a reply is registered, so the sending end of its channel exists and the
      error for a closed channel cannot occur; once it waits, all it can do is be given up. */
  ghost predicate HeldOpen(s: System, c: nat) {
    c in s.calls && Listening(s.calls[c]) ==>
      && s.calls[c].slot.None?
      && s.calls[c].id in s.pending && s.pending[s.calls[c].id] == c
      && (s.calls[c].phase == Waiting ==> !Enabled(s, Return(c)) && !Enabled(s, WriteFails(c)))
  }

  lemma UnrepliedStep(s: System, step: Step, c: nat)
    requires Inv(s) && !s.open && !Replied(s, c) && Enabled(s, step)
    ensures !Apply(s, step).open && !Replied(Apply(s, step), c)
  {
    if c in s.calls { assert CallOk(s, c); }
  }

  lemma UnrepliedIsHeldOpen(s: System, c: nat)
    requires Inv(s) && !Replied(s, c)
    ensures HeldOpen(s, c)
  {
    if c in s.calls { assert CallOk(s, c); }
  }

  /** Once the host's output has ended, a call without a reply never returns, whether it is waiting, registered,
      allotted or not even begun, and not even with the error meant for this case. It can only fail at its
      write, be given up, or wait forever with its entry registered. */
  lemma {:induction false} EndLeavesCallsWaiting(s: System, steps: seq<Step>, c: nat)
    requires Inv(s) && !s.open && !Replied(s, c) && Runnable(s, steps)
    ensures var n := After(s, steps);
            && !Returned(n, c) && !Replied(n, c) && HeldOpen(n, c)
            && (c in n.calls ==> n.calls[c].phase in {Allotted, Inserted, Waiting, Failed, Gone})
    decreases |steps|
  {
    if steps == [] {
      UnrepliedIsHeldOpen(s, c);
    } else {
      StepKeepsInv(s, steps[0]);
      UnrepliedStep(s, steps[0], c);
      EndLeavesCallsWaiting(Apply(s, steps[0]), steps[1..], c);
    }
  }

  lemma OneStep(s: System, step: Step)
    requires Enabled(s, step)
    ensures Runnable(s, [step]) && After(s, [step]) == Apply(s, step)
  {
    assert [step][1..] == [];
    assert Runnable(Apply(s, step), []) && After(Apply(s, step), []) == Apply(s, step);
  }

  lemma TwoSteps(s: System, first: Step, second: Step)
    requires Enabled(s, first) && Enabled(Apply(s, first), second)
    ensures Runnable(s, [first, second]) && After(s, [first, second]) == Apply(Apply(s, first), second)
  {
    OneStep(Apply(s, first), second);
    assert [first, second][1..] == [second];
  }

  lemma RepliedCanReturn(s: System, c: nat)
    requires Inv(s) && Replied(s, c)
    ensures CanReturn(s, c)
  {
    assert CallOk(s, c);
    if s.calls[c].phase.Done? {
      assert Runnable(s, []) && Returned(After(s, []), c);
    } else if s.calls[c].phase == Waiting {
      OneStep(s, Return(c));
      assert Returned(After(s, [Return(c)]), c);
    } else {
      TwoSteps(s, Write(c), Return(c));
      assert Returned(After(s, [Write(c), Return(c)]), c);
    }
  }

  /** After the end of the host's output a call can still return exactly if its reply came before the end. */
  lemma ReturnsIffReplied(s: System, c: nat)
    requires Inv(s) && !s.open
    ensures CanReturn(s, c) <==> Replied(s, c)
  {
    if Replied(s, c) {
      RepliedCanReturn(s, c);
    } else {
      forall steps: seq<Step> | Runnable(s, steps) ensures !Returned(After(s, steps), c) {
        EndLeavesCallsWaiting(s, steps, c);
      }
    }
  }

  /** The end can overtake a reply: one call, registered and written, and then the host is gone. */
  lemma EndOvertakesReply(steps: seq<Step>)
    requires steps == [Begin(0), Insert(0), Write(0), Close]
    ensures Runnable(Start(), steps)
    ensures var s := After(Start(), steps); Inv(s) && !s.open && InPhase(s, 0, Waiting) && !CanReturn(s, 0)
  {
    var s1 := Apply(Start(), Begin(0));
    var s2 := Apply(s1, Insert(0));
    assert steps[1..] == [Insert(0), Write(0), Close] && steps[1..][1..] == [Write(0), Close];
    TwoSteps(s2, Write(0), Close);
    assert After(Start(), steps) == After(s1, steps[1..]) == After(s2, [Write(0), Close]);
    StartInv();
    EveryRunKeepsInv(Start(), steps);
    ReturnsIffReplied(After(Start(), steps), 0);
  }

  /** The counter allots the event id exactly after all others are used up; a reply to that call would be an event. */
  lemma WrapAllotsEventId(s: System)
    requires Inv(s)
    ensures s.nextId == 0 <==> s.started == ID_COUNT - 1
    ensures s.started == ID_COUNT - 1 ==> forall p, env: Envelope :: env.id == s.nextId ==> RouteOf(p, env) == Event
  {
  }

  // ----- one session per plugin bundle -----

  type Bundle = string

  /** Sessions are numbered in the order their hosts were spawned. */
  class SessionManager {
    var byBundle: map<Bundle, nat>
    ghost var spawned: seq<Bundle>

    ghost predicate Valid()
      reads this
    {
      OnePerBundle(byBundle, spawned)
    }

    constructor ()
      ensures Valid() && byBundle == map[] && spawned == []
    {
      byBundle, spawned := map[], [];
    }

    /** The part of `load` under the lock, which is held across the spawn. */
    method SessionFor(bundle: Bundle, host: Option<nat>) returns (session: Option<nat>)
      requires Valid() && (host.Some? ==> host.value == |spawned|)
      modifies this
      ensures Valid()
      ensures bundle in old(byBundle) ==>
        session == Some(old(byBundle)[bundle]) && byBundle == old(byBundle) && spawned == old(spawned)
      ensures bundle !in old(byBundle) ==>
        && session == host
        && byBundle == (if host.Some? then old(byBundle)[bundle := host.value] else old(byBundle))
        && spawned == (if host.Some? then old(spawned) + [bundle] else old(spawned))
    {
      if bundle in byBundle { return Some(byBundle[bundle]); }
      if host.None? { return None; }
      byBundle := byBundle[bundle := host.value];
      spawned := spawned + [bundle];
      return host;
    }
  }

  /** Every spawned host is the one its bundle maps to, so no bundle was spawned for twice. */
  predicate OnePerBundle(byBundle: map<Bundle, nat>, spawned: seq<Bundle>) {
    && (forall b :: b in byBundle ==> byBundle[b] < |spawned| && spawned[byBundle[b]] == b)
    && (forall k :: 0 <= k < |spawned| ==> spawned[k] in byBundle && byBundle[spawned[k]] == k)
  }

  /** Loads from any number of callers; one of them at a time may hold the lock while it spawns. */
  datatype Manager = Manager(
    byBundle: map<Bundle, nat>, spawned: seq<Bundle>, holder: Option<(nat, Bundle)>,
    asked: map<nat, Bundle>, got: map<nat, nat>)

  datatype LoadStep = Lock(caller: nat, bundle: Bundle) | Spawned | SpawnFailed

  predicate CanLoad(m: Manager, step: LoadStep) {
    match step
    case Lock(c, _) => m.holder.None? && c !in m.asked
    case Spawned => m.holder.Some?
    case SpawnFailed => m.holder.Some?
  }

  function LoadStepped(m: Manager, step: LoadStep): Manager
    requires CanLoad(m, step)
  {
    match step
    case Lock(c, b) =>
      if b in m.byBundle then m.(asked := m.asked[c := b], got := m.got[c := m.byBundle[b]])
      else m.(asked := m.asked[c := b], holder := Some((c, b)))
    case Spawned =>
      var (c, b) := m.holder.value;
      m.(byBundle := m.byBundle[b := |m.spawned|], spawned := m.spawned + [b], holder := None,
         got := m.got[c := |m.spawned|])
    case SpawnFailed => m.(holder := None)
  }

  predicate ManagerInv(m: Manager) {
    && OnePerBundle(m.byBundle, m.spawned)
    && (m.holder.Some? ==>
          m.holder.value.1 !in m.byBundle && m.holder.value.0 in m.asked
          && m.asked[m.holder.value.0] == m.holder.value.1)
    && (forall c :: c in m.got ==> c in m.asked && m.got[c] < |m.spawned| && m.spawned[m.got[c]] == m.asked[c])
  }

  predicate CanLoadAll(m: Manager, steps: seq<LoadStep>)
    decreases |steps|
  {
    steps == [] || (CanLoad(m, steps[0]) && CanLoadAll(LoadStepped(m, steps[0]), steps[1..]))
  }

  function AfterLoads(m: Manager, steps: seq<LoadStep>): Manager
    requires CanLoadAll(m, steps)
    decreases |steps|
  {
    if steps == [] then m else AfterLoads(LoadStepped(m, steps[0]), steps[1..])
  }

  lemma LoadKeepsInv(m: Manager, step: LoadStep)
    requires ManagerInv(m) && CanLoad(m, step)
    ensures ManagerInv(LoadStepped(m, step))
  {
  }

  lemma {:induction false} LoadsKeepInv(m: Manager, steps: seq<LoadStep>)
    requires ManagerInv(m) && CanLoadAll(m, steps)
    ensures ManagerInv(AfterLoads(m, steps))
    decreases |steps|
  {
    if steps == [] {
    } else {
      LoadKeepsInv(m, steps[0]);
      LoadsKeepInv(LoadStepped(m, steps[0]), steps[1..]);
    }
  }

  /** On every interleaving of loads, with spawns failing at will, no bundle is spawned for twice, and two
      callers are given the same session exactly if they asked for the same bundle. */
  lemma OneSessionPerBundle(steps: seq<LoadStep>)
    requires CanLoadAll(Manager(map[], [], None, map[], map[]), steps)
    ensures var m := AfterLoads(Manager(map[], [], None, map[], map[]), steps);
            && (forall i, j :: 0 <= i < j < |m.spawned| ==> m.spawned[i] != m.spawned[j])
            && (forall c, d :: c in m.got && d in m.got ==>
                  c in m.asked && d in m.asked && (m.got[c] == m.got[d] <==> m.asked[c] == m.asked[d]))
  {
    var start := Manager(map[], [], None, map[], map[]);
    LoadsKeepInv(start, steps);
    var m := AfterLoads(start, steps);
    assert OnePerBundle(m.byBundle, m.spawned);
  }
}
