/** The library watcher's loop: change events are collected and handed over once they have been quiet
    for the debounce interval. */
module Watcher {
  import opened Words

  datatype Path = Path(parent: string, fileName: string)

  datatype EventKind = Any | Access | Create | Modify | Remove | Other

  /** What one receive returns, and the instant the arm that handles it reads from the clock. */
  datatype Outcome = Event(kind: EventKind, paths: seq<Path>) | WatchError | Timeout | Disconnected
  datatype Received = Received(outcome: Outcome, at: nat)

  /** A batch handed over at `at`, while handling the receive at `index`. */
  datatype Batch = Batch(paths: seq<Path>, at: nat, index: nat)

  datatype State = State(pending: seq<Path>, deadline: Option<nat>, delivered: seq<Batch>, running: bool)

  // ----- which files count -----

  function LastDot(name: string): Option<nat> {
    if name == "" then None
    else if name[|name| - 1] == '.' then Some(|name| - 1)
    else LastDot(name[..|name| - 1])
  }

  /** `Path::extension` on a final component: what follows its last dot, unless that dot is its first character. */
  function Extension(name: string): Option<string> {
    var dot := LastDot(name);
    if name == ".." || dot.None? || dot.value == 0 || dot.value >= |name| then None else Some(name[dot.value + 1..])
  }

  predicate Interesting(p: Path) {
    Extension(p.fileName) == Some("nksf")
  }

  lemma {:induction false} LastDotIs(name: string)
    ensures var d := LastDot(name);
            && (d.Some? ==> d.value < |name| && name[d.value] == '.'
                            && forall i :: d.value < i < |name| ==> name[i] != '.')
            && (d.None? ==> forall i :: 0 <= i < |name| ==> name[i] != '.')
  {
    if name == "" {
    } else {
      var rest := name[..|name| - 1];
      LastDotIs(rest);
      assert forall i :: 0 <= i < |rest| ==> rest[i] == name[i];
    }
  }

  /** A file counts exactly if its name ends in `.nksf` and has something before it. */
  lemma InterestingIsSuffix(p: Path)
    ensures Interesting(p) <==> |p.fileName| > 5 && p.fileName[|p.fileName| - 5..] == ".nksf"
  {
    var name := p.fileName;
    LastDotIs(name);
    var d := LastDot(name);
    if |name| > 5 && name[|name| - 5..] == ".nksf" {
      var n := |name| - 5;
      assert name[n] == ".nksf"[0] && name[n + 1] == ".nksf"[1] && name[n + 2] == ".nksf"[2];
      assert name[n + 3] == ".nksf"[3] && name[n + 4] == ".nksf"[4];
      assert name[n + 1..] == name[n..][1..] == ".nksf"[1..] == "nksf";
    }
    if Interesting(p) {
      assert |name| - (d.value + 1) == 4;
      assert name[d.value..] == [name[d.value]] + name[d.value + 1..] == ['.'] + "nksf" == ".nksf";
    }
  }

  // ----- the loop -----

  predicate IsChange(r: Received) {
    r.outcome.Event? && (r.outcome.kind == Modify || r.outcome.kind == Create || r.outcome.kind == Remove)
  }

  function Wanted(paths: seq<Path>): seq<Path> {
    if paths == [] then []
    else Wanted(paths[..|paths| - 1])
         + if Interesting(paths[|paths| - 1]) then [paths[|paths| - 1]] else []
  }

  predicate Due(s: State, at: nat) {
    s.pending != [] && s.deadline.Some? && s.deadline.value <= at
  }

  /** One turn of the loop, for the receive at `index`. */
  function Turn(s: State, r: Received, index: nat, debounce: nat): State {
    if !s.running then s
    else if IsChange(r) then s.(pending := s.pending + Wanted(r.outcome.paths), deadline := Some(r.at + debounce))
    else if r.outcome.Timeout? && Due(s, r.at) then
      State([], None, s.delivered + [Batch(s.pending, r.at, index)], true)
    else if r.outcome.Disconnected? then s.(running := false)
    else s
  }

  function Run(trace: seq<Received>, debounce: nat): State {
    if trace == [] then State([], None, [], true)
    else Turn(Run(trace[..|trace| - 1], debounce), trace[|trace| - 1], |trace| - 1, debounce)
  }

  method Collect(pending: seq<Path>, paths: seq<Path>) returns (all: seq<Path>)
    ensures all == pending + Wanted(paths)
  {
    all := pending;
    for i := 0 to |paths|
      invariant all == pending + Wanted(paths[..i])
    {
      assert paths[..i + 1][..i] == paths[..i];
      if Interesting(paths[i]) { all := all + [paths[i]]; }
    }
    assert paths[..|paths|] == paths;
  }

  method Watch(trace: seq<Received>, debounce: nat) returns (s: State)
    ensures s == Run(trace, debounce)
  {
    var pending: seq<Path>, deadline: Option<nat>, delivered: seq<Batch> := [], None, [];
    var running := true;
    var i := 0;
    while i < |trace| && running
      invariant i <= |trace| && State(pending, deadline, delivered, running) == Run(trace[..i], debounce)
    {
      assert trace[..i + 1][..i] == trace[..i];
      var r := trace[i];
      match r.outcome {
        case Event(kind, paths) =>
          if kind == Modify || kind == Create || kind == Remove {
            pending := Collect(pending, paths);
            deadline := Some(r.at + debounce);
          }
        case WatchError =>
        case Timeout =>
          if pending != [] && deadline.Some? && deadline.value <= r.at {
            delivered := delivered + [Batch(pending, r.at, i)];
            pending := [];
            deadline := None;
          }
        case Disconnected =>
          running := false;
      }
      i := i + 1;
    }
    s := State(pending, deadline, delivered, running);
    if i < |trace| { StoppedStays(trace, i, debounce); } else { assert trace[..i] == trace; }
  }

  lemma {:induction false} StoppedStays(trace: seq<Received>, i: nat, debounce: nat)
    requires i <= |trace| && !Run(trace[..i], debounce).running
    ensures Run(trace, debounce) == Run(trace[..i], debounce)
    decreases |trace|
  {
    if i == |trace| {
      assert trace[..i] == trace;
    } else {
      var n := |trace| - 1;
      assert trace[..n][..i] == trace[..i];
      StoppedStays(trace[..n], i, debounce);
    }
  }

  // ----- what the loop promises -----

  /** The receives the loop gets to: those before the first disconnect. */
  function Handled(trace: seq<Received>): seq<Received> {
    if trace == [] then []
    else if trace[0].outcome.Disconnected? then []
    else [trace[0]] + Handled(trace[1..])
  }

  function AllWanted(trace: seq<Received>): seq<Path> {
    if trace == [] then []
    else AllWanted(trace[..|trace| - 1])
         + if IsChange(trace[|trace| - 1]) then Wanted(trace[|trace| - 1].outcome.paths) else []
  }

  function Flatten(batches: seq<Batch>): seq<Path> {
    if batches == [] then [] else Flatten(batches[..|batches| - 1]) + batches[|batches| - 1].paths
  }

  predicate Connected(trace: seq<Received>) {
    forall i :: 0 <= i < |trace| ==> !trace[i].outcome.Disconnected?
  }

  lemma {:induction false} ConnectedRuns(trace: seq<Received>, debounce: nat)
    ensures Run(trace, debounce).running <==> Connected(trace)
  {
    if trace == [] {
    } else {
      var n := |trace| - 1;
      ConnectedRuns(trace[..n], debounce);
      assert trace == trace[..n] + [trace[n]];
    }
  }

  lemma {:induction false} Conserved(trace: seq<Received>, debounce: nat)
    requires Connected(trace)
    ensures var s := Run(trace, debounce); Flatten(s.delivered) + s.pending == AllWanted(trace)
  {
    if trace == [] {
    } else {
      var n := |trace| - 1;
      var before, r := Run(trace[..n], debounce), trace[n];
      Conserved(trace[..n], debounce);
      ConnectedRuns(trace[..n], debounce);
      if IsChange(r) {
        AppendAssoc(Flatten(before.delivered), before.pending, Wanted(r.outcome.paths));
      } else if r.outcome.Timeout? && Due(before, r.at) {
        var all := before.delivered + [Batch(before.pending, r.at, n)];
        assert all[..|all| - 1] == before.delivered;
      }
    }
  }

  lemma HandledRuns(trace: seq<Received>, debounce: nat)
    ensures Connected(Handled(trace)) && Handled(trace) <= trace
    ensures var s, h := Run(trace, debounce), Run(Handled(trace), debounce);
            s.pending == h.pending && s.deadline == h.deadline && s.delivered == h.delivered
  {
    HandledPrefix(trace);
    var k := |Handled(trace)|;
    ConnectedRuns(Handled(trace), debounce);
    assert trace[..k] == Handled(trace);
    if k < |trace| {
      var upTo := trace[..k + 1];
      assert upTo[..|upTo| - 1] == trace[..k] && upTo[|upTo| - 1] == trace[k];
      StoppedStays(trace, k + 1, debounce);
    } else {
      assert trace[..k] == trace;
    }
  }

  lemma {:induction false} HandledPrefix(trace: seq<Received>)
    ensures Connected(Handled(trace)) && Handled(trace) <= trace
    ensures |Handled(trace)| < |trace| ==> trace[|Handled(trace)|].outcome.Disconnected?
  {
    if trace == [] {
    } else {
      HandledPrefix(trace[1..]);
    }
  }

  /** For every trace: what has been handed over, in order, followed by what is still pending is exactly the
      interesting paths of the change events before the disconnect, in arrival order. */
  lemma NothingLost(trace: seq<Received>, debounce: nat)
    ensures var s := Run(trace, debounce); Flatten(s.delivered) + s.pending == AllWanted(Handled(trace))
  {
    HandledRuns(trace, debounce);
    Conserved(Handled(trace), debounce);
  }

  /** The clock does not run backwards. */
  predicate Monotone(trace: seq<Received>) {
    forall i, j :: 0 <= i < j < |trace| ==> trace[i].at <= trace[j].at
  }

  /** A deadline is always one interval after the last change, and set while anything is pending. */
  predicate DeadlineOk(trace: seq<Received>, s: State, debounce: nat) {
    && (s.pending != [] ==> s.deadline.Some?)
    && (s.deadline.Some? ==>
          forall i :: 0 <= i < |trace| && IsChange(trace[i]) ==> trace[i].at + debounce <= s.deadline.value)
  }

  /** The batch is not empty, was handed over by a timeout, and no earlier change is closer than the interval. */
  predicate Quiet(trace: seq<Received>, b: Batch, debounce: nat) {
    && b.paths != [] && b.index < |trace| && trace[b.index] == Received(Timeout, b.at)
    && forall i :: 0 <= i < b.index && IsChange(trace[i]) ==> trace[i].at + debounce <= b.at
  }

  lemma {:induction false} Debounced(trace: seq<Received>, debounce: nat)
    requires Monotone(trace) && Connected(trace)
    ensures DeadlineOk(trace, Run(trace, debounce), debounce)
    ensures forall k :: 0 <= k < |Run(trace, debounce).delivered| ==>
              Quiet(trace, Run(trace, debounce).delivered[k], debounce)
  {
    if trace == [] {
    } else {
      var n := |trace| - 1;
      var before, s := Run(trace[..n], debounce), Run(trace, debounce);
      Debounced(trace[..n], debounce);
      ConnectedRuns(trace[..n], debounce);
      forall k | 0 <= k < |s.delivered| ensures Quiet(trace, s.delivered[k], debounce) {
        if k < |before.delivered| {
          assert Quiet(trace[..n], before.delivered[k], debounce);
          assert forall i :: 0 <= i < n ==> trace[i] == trace[..n][i];
        } else {
          assert forall i :: 0 <= i < n ==> trace[i] == trace[..n][i];
        }
      }
      assert forall i :: 0 <= i < n ==> trace[i] == trace[..n][i];
    }
  }

  /** For every trace under a clock that does not run backwards: no batch is handed over sooner than the interval
      after the last change before it, interesting or not. */
  lemma NoEarlyBatch(trace: seq<Received>, debounce: nat)
    requires Monotone(trace)
    ensures var s := Run(trace, debounce);
            && (s.pending != [] ==> s.deadline.Some?)
            && forall k :: 0 <= k < |s.delivered| ==> Quiet(trace, s.delivered[k], debounce)
  {
    HandledRuns(trace, debounce);
    var h := Handled(trace);
    assert forall i :: 0 <= i < |h| ==> h[i] == trace[i];
    Debounced(h, debounce);
    var s := Run(trace, debounce);
    forall k | 0 <= k < |s.delivered| ensures Quiet(trace, s.delivered[k], debounce) {
      assert Quiet(h, s.delivered[k], debounce);
    }
  }

  // ----- a deadline with nothing to deliver -----

  /** The first receive after the last delivery. */
  function SinceDelivery(s: State): nat {
    if s.delivered == [] then 0 else s.delivered[|s.delivered| - 1].index + 1
  }

  ghost predicate ChangedSince(trace: seq<Received>, from: nat) {
    exists i :: from <= i < |trace| && IsChange(trace[i])
  }

  ghost predicate WantedSince(trace: seq<Received>, from: nat) {
    exists i :: from <= i < |trace| && BringsWanted(trace[i])
  }

  predicate BringsWanted(r: Received) {
    IsChange(r) && Wanted(r.outcome.paths) != []
  }

  lemma ChangedSinceLast(trace: seq<Received>, from: nat)
    requires trace != [] && from <= |trace| - 1
    ensures var n := |trace| - 1;
            && (ChangedSince(trace, from) <==> ChangedSince(trace[..n], from) || IsChange(trace[n]))
            && (WantedSince(trace, from) <==> WantedSince(trace[..n], from) || BringsWanted(trace[n]))
  {
    var n := |trace| - 1;
    if ChangedSince(trace[..n], from) {
      var i :| from <= i < n && IsChange(trace[..n][i]);
      assert IsChange(trace[i]);
    }
    if ChangedSince(trace, from) && !IsChange(trace[n]) {
      var i :| from <= i < |trace| && IsChange(trace[i]);
      assert IsChange(trace[..n][i]);
    }
    if WantedSince(trace[..n], from) {
      var i :| from <= i < n && BringsWanted(trace[..n][i]);
      assert BringsWanted(trace[i]);
    }
    if WantedSince(trace, from) && !BringsWanted(trace[n]) {
      var i :| from <= i < |trace| && BringsWanted(trace[i]);
      assert BringsWanted(trace[..n][i]);
    }
  }

  /** A deadline is set exactly if some change came since the last delivery; something is pending exactly if
      one of those changes had an interesting path. So a deadline has nothing to deliver exactly if there
      were such changes and none had one. */
  lemma {:induction false} DeadlineSince(trace: seq<Received>, debounce: nat)
    requires Connected(trace)
    ensures var s := Run(trace, debounce);
            && SinceDelivery(s) <= |trace|
            && (s.deadline.Some? <==> ChangedSince(trace, SinceDelivery(s)))
            && (s.pending != [] <==> WantedSince(trace, SinceDelivery(s)))
  {
    if trace == [] {
    } else {
      var n := |trace| - 1;
      var before := Run(trace[..n], debounce);
      DeadlineSince(trace[..n], debounce);
      ConnectedRuns(trace[..n], debounce);
      ChangedSinceLast(trace, SinceDelivery(before));
    }
  }

  lemma {:induction false} IdleKept(trace: seq<Received>, more: seq<Received>, debounce: nat)
    requires Run(trace, debounce).pending == []
    requires forall i :: 0 <= i < |more| ==> !IsChange(more[i]) && !more[i].outcome.Disconnected?
    ensures Run(trace + more, debounce) == Run(trace, debounce)
    decreases |more|
  {
    if more == [] {
      assert trace + more == trace;
    } else {
      var n := |more| - 1;
      IdleKept(trace, more[..n], debounce);
      assert (trace + more)[..|trace| + n] == trace + more[..n];
    }
  }

  /** However often the loop then wakes up and times out, such a deadline is never cleared until the next
      change: from its instant on every wait is of length zero. */
  lemma EmptyDeadlineStays(trace: seq<Received>, more: seq<Received>, debounce: nat)
    requires Connected(trace) && Connected(more)
    requires var s := Run(trace, debounce);
             ChangedSince(trace, SinceDelivery(s)) && !WantedSince(trace, SinceDelivery(s))
    requires forall i :: 0 <= i < |more| ==> !IsChange(more[i])
    ensures Run(trace + more, debounce).deadline.Some? && Run(trace + more, debounce) == Run(trace, debounce)
  {
    DeadlineSince(trace, debounce);
    IdleKept(trace, more, debounce);
  }

  // ----- when a batch is delivered -----

  /** The last change of the trace. */
  function LastChange(trace: seq<Received>): (r: Option<nat>)
    ensures r.Some? ==>
              && r.value < |trace| && IsChange(trace[r.value])
              && forall i :: r.value < i < |trace| ==> !IsChange(trace[i])
    ensures r.None? ==> forall i :: 0 <= i < |trace| ==> !IsChange(trace[i])
  {
    if trace == [] then None
    else if IsChange(trace[|trace| - 1]) then Some(|trace| - 1)
    else LastChange(trace[..|trace| - 1])
  }

  lemma LastChangeBefore(trace: seq<Received>)
    requires trace != [] && !IsChange(trace[|trace| - 1])
    ensures LastChange(trace) == LastChange(trace[..|trace| - 1])
  {
  }

  /** A deadline is the instant of the last change plus the interval, no sooner and no later. */
  lemma {:induction false} DeadlineExactly(trace: seq<Received>, debounce: nat)
    requires Connected(trace)
    ensures var s := Run(trace, debounce);
            s.deadline.Some? ==>
              && LastChange(trace).Some?
              && s.deadline.value == trace[LastChange(trace).value].at + debounce
  {
    if trace == [] {
    } else {
      var n := |trace| - 1;
      DeadlineExactly(trace[..n], debounce);
      ConnectedRuns(trace[..n], debounce);
      if !IsChange(trace[n]) { LastChangeBefore(trace); }
    }
  }

  /** While anything is pending, a timeout at least the interval after the last change hands all of it over in one
      batch; an earlier one changes nothing. */
  lemma TimeoutDelivers(trace: seq<Received>, at: nat, debounce: nat)
    requires Connected(trace) && Run(trace, debounce).pending != []
    ensures LastChange(trace).Some?
    ensures var s, n := Run(trace, debounce), Run(trace + [Received(Timeout, at)], debounce);
            var changed := trace[LastChange(trace).value].at;
            && s.deadline == Some(changed + debounce)
            && (at >= changed + debounce ==>
                  && n.pending == [] && n.deadline.None? && Flatten(n.delivered) == AllWanted(trace)
                  && n.delivered == s.delivered + [Batch(s.pending, at, |trace|)])
            && (at < changed + debounce ==> n == s)
  {
    var more := trace + [Received(Timeout, at)];
    assert more[..|trace|] == trace;
    ConnectedRuns(trace, debounce);
    PendingHasDeadline(trace, debounce);
    DeadlineExactly(trace, debounce);
    Conserved(trace, debounce);
    var s := Run(trace, debounce);
    var all := s.delivered + [Batch(s.pending, at, |trace|)];
    assert all[..|all| - 1] == s.delivered;
  }

  lemma {:induction false} PendingHasDeadline(trace: seq<Received>, debounce: nat)
    ensures Run(trace, debounce).pending != [] ==> Run(trace, debounce).deadline.Some?
  {
    if trace == [] {
    } else {
      PendingHasDeadline(trace[..|trace| - 1], debounce);
    }
  }

  // ----- which paths a batch holds -----

  /** Filtering works path by path and keeps order and repetitions. */
  lemma {:induction false} WantedSplit(a: seq<Path>, b: seq<Path>)
    ensures Wanted(a + b) == Wanted(a) + Wanted(b)
    decreases |b|
  {
    if b == [] {
      assert a + b == a;
    } else {
      var n := |b| - 1;
      assert (a + b)[..|a| + n] == a + b[..n];
      WantedSplit(a, b[..n]);
    }
  }

  lemma WantedOne(p: Path)
    ensures Wanted([p]) == if Interesting(p) then [p] else []
  {
    assert [p][..0] == [];
  }

  /** One event for one file and one timeout: the file is handed over exactly if it was created, modified or removed,
      its name ends in `.nksf` after something, and the timeout came no sooner than the interval after the event. */
  lemma OneFileDelivered(kind: EventKind, p: Path, at: nat, later: nat, debounce: nat)
    ensures var trace := [Received(Event(kind, [p]), at), Received(Timeout, later)];
            Run(trace, debounce).delivered
            == if (kind == Create || kind == Modify || kind == Remove)
                  && |p.fileName| > 5 && p.fileName[|p.fileName| - 5..] == ".nksf" && later >= at + debounce
               then [Batch([p], later, 1)] else []
  {
    var trace := [Received(Event(kind, [p]), at), Received(Timeout, later)];
    var first := [trace[0]];
    assert trace[..1] == first && first[..0] == [];
    WantedOne(p);
    InterestingIsSuffix(p);
    assert Run(first, debounce) == Turn(Run([], debounce), trace[0], 0, debounce);
    assert Run(trace, debounce) == Turn(Run(first, debounce), trace[1], 1, debounce);
  }
}
