/** The display scheduler: closures modify a framebuffer under its lock, the display's task encodes
    under the lock and writes with the lock released. Both displays share one device. */
module Scheduler {
  import opened Words
  import opened Tiles
  import opened Wire
  import opened Framebuffers
  import opened Encoder

  type Place = k: nat | k < PIXELS witness 0

  /** One drawing call inside a `modify` closure. `Poke` writes through the mutable pixel slice. */
  datatype Draw =
    | ClearAll(color: Rgb)
    | SetPx(x: u16, y: u16, color: Rgb)
    | FillBox(x: u16, y: u16, w: u16, h: u16, color: Rgb)
    | TouchBox(x: u16, y: u16, w: u16, h: u16)
    | Poke(k: Place, v: u16)
  {
    /** The tiles the call marks. */
    ghost function Marks(): set<Tile> {
      match this
      case ClearAll(_) => AllTiles()
      case SetPx(x, y, _) => RectTiles(x, y, 1, 1)
      case FillBox(x, y, w, h, _) => RectTiles(x, y, w, h)
      case TouchBox(x, y, w, h) => RectTiles(x, y, w, h)
      case Poke(_, _) => {}
    }
  }

  ghost function Drawn(fb: Fb, draw: Draw): (r: Fb)
  {
    match draw
    case ClearAll(c) => Fb(Plain(c.ToRgb565()), AllTiles())
    case SetPx(x, y, c) => Filled(fb, x, y, 1, 1, c.ToRgb565())
    case FillBox(x, y, w, h, c) => Filled(fb, x, y, w, h, c.ToRgb565())
    case TouchBox(x, y, w, h) => Touched(fb, x, y, w, h)
    case Poke(k, v) => Poked(fb, k, v)
  }

  /** A transfer being written, with the framebuffer value it was encoded from. */
  datatype Flight = Flight(payload: seq<u8>, snap: Fb)

  /** One display's share of the state. `owed` and `lost` are bookkeeping: pixels written directly in a
      tile that has not been marked since, and tiles of failed writes that have not been encoded since. */
  datatype Lane = Lane(fb: Fb, flight: Option<Flight>, owed: set<nat>, lost: set<Tile>)

  datatype System = System(left: Lane, right: Lane, screens: Screens) {
    function Get(id: DisplayId): Lane {
      match id case Left => left case Right => right
    }
    /** This display's lane and what its screen shows; the other display as before. */
    function Put(id: DisplayId, lane: Lane, screen: Screen): System {
      match id
      case Left => System(lane, right, screens.Put(id, screen))
      case Right => System(left, lane, screens.Put(id, screen))
    }
  }

  ghost function DrawLane(lane: Lane, draw: Draw): Lane {
    var fb := Drawn(lane.fb, draw);
    var written := if draw.Poke? then lane.owed + {draw.k} else lane.owed;
    lane.(fb := fb, owed := Unmarked(written, fb.dirty))
  }

  ghost function Unmarked(written: set<nat>, dirty: set<Tile>): set<nat> {
    set k | k in written && TileOf(k) !in dirty
  }

  ghost function DrawAll(lane: Lane, draws: seq<Draw>): Lane
    decreases |draws|
  {
    if draws == [] then lane else DrawAll(DrawLane(lane, draws[0]), draws[1..])
  }

  datatype Step =
    | Modify(id: DisplayId, draws: seq<Draw>)
    | Idle(id: DisplayId)
    | Encode(id: DisplayId, payload: seq<u8>)
    | Delivered(id: DisplayId)
    | WriteFailed(id: DisplayId, shown: Screen)

  /** A display's task does one thing at a time: it encodes only when no write of its own is under way.
      A failed write may have changed any part of the area it was sent for, and nothing else. */
  ghost predicate Enabled(s: System, step: Step) {
    var lane := s.Get(step.id);
    match step
    case Modify(_, _) => true
    case Idle(_) => lane.flight.None? && lane.fb.dirty == {}
    case Encode(id, payload) => lane.flight.None? && lane.fb.dirty != {} && IsFrame(id, lane.fb, payload)
    case Delivered(_) => lane.flight.Some? && Interpret(s.screens, lane.flight.value.payload).Some?
    case WriteFailed(id, shown) =>
      lane.flight.Some? && SameOutside(lane.flight.value.snap.dirty, s.screens.Get(id), shown)
  }

  ghost predicate SameOutside(tiles: set<Tile>, was: Screen, now: Screen) {
    forall k: nat :: k < PIXELS && TileOf(k) !in tiles ==> now[k] == was[k]
  }

  ghost function Encoded(lane: Lane, payload: seq<u8>): Lane {
    Lane(lane.fb.(dirty := {}), Some(Flight(payload, lane.fb)), lane.owed, lane.lost - lane.fb.dirty)
  }

  ghost function Failed(lane: Lane): Lane
    requires lane.flight.Some?
  {
    lane.(flight := None, lost := lane.lost + lane.flight.value.snap.dirty)
  }

  ghost function Apply(s: System, step: Step): System
    requires Enabled(s, step)
  {
    var lane := s.Get(step.id);
    var screen := s.screens.Get(step.id);
    match step
    case Modify(id, draws) => s.Put(id, DrawAll(lane, draws), screen)
    case Idle(_) => s
    case Encode(id, payload) => s.Put(id, Encoded(lane, payload), screen)
    case Delivered(id) =>
      s.Put(id, lane.(flight := None), screen).(screens := Interpret(s.screens, lane.flight.value.payload).value)
    case WriteFailed(id, shown) => s.Put(id, Failed(lane), shown)
  }

  /** What the display's screen will show once the write under way has arrived. */
  ghost function Expected(lane: Lane, screen: Screen): Screen {
    if lane.flight.None? then screen else Merge(screen, lane.flight.value.snap)
  }

  ghost predicate Settled(lane: Lane, k: nat) {
    TileOf(k) !in lane.fb.dirty && k !in lane.owed && TileOf(k) !in lane.lost
  }

  ghost predicate Tracks(id: DisplayId, lane: Lane, screen: Screen) {
    && lane.fb.dirty <= AllTiles()
    && (lane.flight.Some? ==> IsFrame(id, lane.flight.value.snap, lane.flight.value.payload))
    && (forall k: nat :: k < PIXELS && Settled(lane, k) ==> Expected(lane, screen)[k] == lane.fb.pixels[k])
  }

  ghost predicate Coherent(s: System) {
    Tracks(Left, s.left, s.screens.left) && Tracks(Right, s.right, s.screens.right)
  }

  ghost function Start(): System {
    var lane := Lane(Fb(Plain(0), {}), None, {}, {});
    System(lane, lane, Screens(Plain(0), Plain(0)))
  }

  // ----- runs -----

  ghost predicate Runnable(s: System, steps: seq<Step>)
    decreases |steps|
  {
    steps == [] || (Enabled(s, steps[0]) && Runnable(Apply(s, steps[0]), steps[1..]))
  }

  ghost function After(s: System, steps: seq<Step>): System
    requires Runnable(s, steps)
    decreases |steps|
  {
    if steps == [] then s else After(Apply(s, steps[0]), steps[1..])
  }

  lemma DrawTracks(id: DisplayId, lane: Lane, screen: Screen, draw: Draw)
    requires Tracks(id, lane, screen)
    ensures Tracks(id, DrawLane(lane, draw), screen)
  {
    var next := DrawLane(lane, draw);
    forall k: nat | k < PIXELS && Settled(next, k)
      ensures Expected(next, screen)[k] == next.fb.pixels[k]
    {
      TileOnGrid(k);
      assert next.fb.pixels[k] == lane.fb.pixels[k] && Settled(lane, k) by {
        if draw.FillBox? && InBox(k, draw.x, draw.y, draw.w, draw.h) {
          FillMarksWhatItChanges(lane.fb, draw.x, draw.y, draw.w, draw.h, draw.color.ToRgb565(), k);
        }
        if draw.SetPx? && InBox(k, draw.x, draw.y, 1, 1) {
          FillMarksWhatItChanges(lane.fb, draw.x, draw.y, 1, 1, draw.color.ToRgb565(), k);
        }
      }
    }
  }

  lemma {:induction false} DrawAllTracks(id: DisplayId, lane: Lane, screen: Screen, draws: seq<Draw>)
    requires Tracks(id, lane, screen)
    ensures Tracks(id, DrawAll(lane, draws), screen)
    decreases |draws|
  {
    if draws == [] {
    } else {
      DrawTracks(id, lane, screen, draws[0]);
      DrawAllTracks(id, DrawLane(lane, draws[0]), screen, draws[1..]);
    }
  }

  lemma EncodeTracks(id: DisplayId, lane: Lane, screen: Screen, payload: seq<u8>)
    requires Tracks(id, lane, screen) && lane.flight.None? && IsFrame(id, lane.fb, payload)
    ensures Tracks(id, Encoded(lane, payload), screen)
  {
    var next := Encoded(lane, payload);
    forall k: nat | k < PIXELS && Settled(next, k) ensures Expected(next, screen)[k] == lane.fb.pixels[k] {
      assert TileOf(k) !in lane.fb.dirty ==> Settled(lane, k);
    }
  }

  lemma FailureTracks(id: DisplayId, lane: Lane, screen: Screen, shown: Screen)
    requires Tracks(id, lane, screen) && lane.flight.Some?
    requires SameOutside(lane.flight.value.snap.dirty, screen, shown)
    ensures Tracks(id, Failed(lane), shown)
  {
    forall k: nat | k < PIXELS && Settled(Failed(lane), k) ensures shown[k] == lane.fb.pixels[k] {
      assert Settled(lane, k);
    }
  }

  lemma DeliveryTracks(id: DisplayId, lane: Lane, screens: Screens)
    requires Tracks(id, lane, screens.Get(id)) && lane.flight.Some?
    ensures Interpret(screens, lane.flight.value.payload)
         == Some(screens.Put(id, Expected(lane, screens.Get(id))))
    ensures Tracks(id, lane.(flight := None), Expected(lane, screens.Get(id)))
  {
    FrameEffect(id, lane.flight.value.snap, lane.flight.value.payload, screens);
    assert forall k: nat :: Settled(lane.(flight := None), k) ==> Settled(lane, k);
  }

  lemma OneLaneTracks(s: System, id: DisplayId, lane: Lane, screen: Screen)
    requires Coherent(s) && Tracks(id, lane, screen)
    ensures Coherent(s.Put(id, lane, screen))
  {
  }

  /** A delivery changes one screen only, to what was expected of it. */
  lemma DeliveryShowsExpected(s: System, id: DisplayId)
    requires Coherent(s) && Enabled(s, Delivered(id))
    ensures Apply(s, Delivered(id))
         == s.Put(id, s.Get(id).(flight := None), Expected(s.Get(id), s.screens.Get(id)))
  {
    DeliveryTracks(id, s.Get(id), s.screens);
  }

  /** Every step of either display's task or clients keeps both displays coherent. */
  lemma StepKeepsCoherent(s: System, step: Step)
    requires Coherent(s) && Enabled(s, step)
    ensures Coherent(Apply(s, step))
  {
    var id := step.id;
    var lane := s.Get(id);
    var screen := s.screens.Get(id);
    assert Tracks(id, lane, screen);
    match step {
      case Modify(_, draws) =>
        DrawAllTracks(id, lane, screen, draws);
        OneLaneTracks(s, id, DrawAll(lane, draws), screen);
      case Idle(_) =>
      case Encode(_, payload) =>
        EncodeTracks(id, lane, screen, payload);
        OneLaneTracks(s, id, Encoded(lane, payload), screen);
      case Delivered(_) =>
        DeliveryTracks(id, lane, s.screens);
        DeliveryShowsExpected(s, id);
        OneLaneTracks(s, id, lane.(flight := None), Expected(lane, screen));
      case WriteFailed(_, shown) =>
        FailureTracks(id, lane, screen, shown);
        OneLaneTracks(s, id, Failed(lane), shown);
    }
  }

  /** On every run, whatever the interleaving and whichever writes fail: each screen, with the write
      under way applied, shows the framebuffer on every pixel whose tile is clean, unless the pixel was
      written directly without a mark or its tile belongs to a failed write. */
  lemma {:induction false} EveryRunCoherent(s: System, steps: seq<Step>)
    requires Coherent(s) && Runnable(s, steps)
    ensures Coherent(After(s, steps))
    decreases |steps|
  {
    if steps == [] {
    } else {
      StepKeepsCoherent(s, steps[0]);
      EveryRunCoherent(Apply(s, steps[0]), steps[1..]);
    }
  }

  // ----- what a closure leaves unmarked -----

  ghost predicate Pokes(draw: Draw, k: nat) {
    draw.Poke? && draw.k == k
  }

  ghost predicate PokedIn(draws: seq<Draw>, k: nat) {
    exists i :: 0 <= i < |draws| && Pokes(draws[i], k)
  }

  ghost predicate MarkedIn(draws: seq<Draw>, t: Tile) {
    exists j :: 0 <= j < |draws| && t in draws[j].Marks()
  }

  lemma PokedInSplit(draws: seq<Draw>, k: nat)
    requires draws != []
    ensures PokedIn(draws, k) <==> Pokes(draws[0], k) || PokedIn(draws[1..], k)
  {
    if PokedIn(draws[1..], k) {
      var i :| 0 <= i < |draws| - 1 && Pokes(draws[1..][i], k);
      assert Pokes(draws[i + 1], k);
    }
    if PokedIn(draws, k) && !Pokes(draws[0], k) {
      var i :| 0 <= i < |draws| && Pokes(draws[i], k);
      assert Pokes(draws[1..][i - 1], k);
    }
  }

  lemma MarkedInSplit(draws: seq<Draw>, t: Tile)
    requires draws != []
    ensures MarkedIn(draws, t) <==> t in draws[0].Marks() || MarkedIn(draws[1..], t)
  {
    if MarkedIn(draws[1..], t) {
      var j :| 0 <= j < |draws| - 1 && t in draws[1..][j].Marks();
      assert t in draws[j + 1].Marks();
    }
    if MarkedIn(draws, t) && t !in draws[0].Marks() {
      var j :| 0 <= j < |draws| && t in draws[j].Marks();
      assert t in draws[1..][j - 1].Marks();
    }
  }

  /** Only grid tiles are dirty, and no pixel of a dirty tile is owed. */
  ghost predicate Tidy(lane: Lane) {
    lane.fb.dirty <= AllTiles() && forall k :: k in lane.owed ==> TileOf(k) !in lane.fb.dirty
  }

  lemma DrawMarks(lane: Lane, draw: Draw)
    requires lane.fb.dirty <= AllTiles()
    ensures DrawLane(lane, draw).fb.dirty == lane.fb.dirty + draw.Marks() <= AllTiles()
  {
  }

  /** A closure leaves dirty what was dirty and what its calls mark. */
  lemma {:induction false} DirtyAfterDraws(lane: Lane, draws: seq<Draw>, t: Tile)
    requires lane.fb.dirty <= AllTiles()
    ensures DrawAll(lane, draws).fb.dirty <= AllTiles()
    ensures t in DrawAll(lane, draws).fb.dirty <==> t in lane.fb.dirty || MarkedIn(draws, t)
    decreases |draws|
  {
    if draws == [] {
    } else {
      DrawMarks(lane, draws[0]);
      DirtyAfterDraws(DrawLane(lane, draws[0]), draws[1..], t);
      MarkedInSplit(draws, t);
    }
  }

  /** A closure leaves owed exactly the pixels that were owed or written directly and whose tile is clean. */
  lemma {:induction false} OwedAfterDraws(lane: Lane, draws: seq<Draw>, k: nat)
    requires Tidy(lane)
    ensures k in DrawAll(lane, draws).owed
       <==> (k in lane.owed || PokedIn(draws, k)) && TileOf(k) !in DrawAll(lane, draws).fb.dirty
    decreases |draws|
  {
    if draws == [] {
    } else {
      var next := DrawLane(lane, draws[0]);
      DrawMarks(lane, draws[0]);
      OwedAfterDraws(next, draws[1..], k);
      DirtyAfterDraws(next, draws[1..], TileOf(k));
      PokedInSplit(draws, k);
    }
  }

  lemma {:induction false} DrawsKeepRest(lane: Lane, draws: seq<Draw>)
    ensures DrawAll(lane, draws).lost == lane.lost && DrawAll(lane, draws).flight == lane.flight
    decreases |draws|
  {
    if draws == [] {
    } else {
      DrawsKeepRest(DrawLane(lane, draws[0]), draws[1..]);
    }
  }

  /** A closure owes nothing afterwards exactly if each tile it writes directly was dirty before or is
      marked by one of its calls, before or after the write. */
  lemma MarkedClosureOwesNothing(lane: Lane, draws: seq<Draw>)
    requires lane.fb.dirty <= AllTiles() && lane.owed == {}
    ensures DrawAll(lane, draws).owed == {}
       <==> forall i :: 0 <= i < |draws| && draws[i].Poke? ==>
              TileOf(draws[i].k) in lane.fb.dirty
              || exists j :: 0 <= j < |draws| && TileOf(draws[i].k) in draws[j].Marks()
  {
    var owed := DrawAll(lane, draws).owed;
    forall i | 0 <= i < |draws| && draws[i].Poke?
      ensures draws[i].k in owed <==>
              !(TileOf(draws[i].k) in lane.fb.dirty
                || exists j :: 0 <= j < |draws| && TileOf(draws[i].k) in draws[j].Marks())
    {
      assert Pokes(draws[i], draws[i].k);
      OwedAfterDraws(lane, draws, draws[i].k);
      DirtyAfterDraws(lane, draws, TileOf(draws[i].k));
    }
    forall k | k in owed ensures exists i :: 0 <= i < |draws| && draws[i].Poke? && draws[i].k == k {
      OwedAfterDraws(lane, draws, k);
      var i :| 0 <= i < |draws| && Pokes(draws[i], k);
    }
  }

  // ----- what a whole run leaves unmarked -----

  ghost predicate Writes(step: Step, id: DisplayId, k: nat) {
    step.Modify? && step.id == id && PokedIn(step.draws, k)
  }

  ghost predicate MarksTile(step: Step, id: DisplayId, t: Tile) {
    step.Modify? && step.id == id && MarkedIn(step.draws, t)
  }

  ghost predicate Encodes(step: Step, id: DisplayId) {
    step.Encode? && step.id == id
  }

  ghost predicate NoEncode(steps: seq<Step>, id: DisplayId, after: nat, before: nat) {
    forall e :: after < e < before && e < |steps| ==> !Encodes(steps[e], id)
  }

  /** Some call of the run marks the tile in step `a`, later, or earlier with no encode of the display in between. */
  ghost predicate MarkedAround(steps: seq<Step>, id: DisplayId, a: nat, t: Tile) {
    exists b: nat :: b < |steps| && MarksTile(steps[b], id, t) && NoEncode(steps, id, b, a)
  }

  ghost predicate UnmarkedWrite(steps: seq<Step>, id: DisplayId, k: nat, a: nat) {
    a < |steps| && Writes(steps[a], id, k) && !MarkedAround(steps, id, a, TileOf(k))
  }

  ghost predicate HasUnmarkedWrite(steps: seq<Step>, id: DisplayId, k: nat) {
    exists a: nat :: UnmarkedWrite(steps, id, k, a)
  }

  lemma {:induction false} LastStep(s: System, steps: seq<Step>)
    requires Runnable(s, steps) && steps != []
    ensures var n := |steps| - 1;
            && Runnable(s, steps[..n]) && Enabled(After(s, steps[..n]), steps[n])
            && After(s, steps) == Apply(After(s, steps[..n]), steps[n])
    decreases |steps|
  {
    var n := |steps| - 1;
    if n == 0 {
      assert steps[..0] == [] && steps[1..] == [];
    } else {
      LastStep(Apply(s, steps[0]), steps[1..]);
      assert steps[1..][..n - 1] == steps[..n][1..] && steps[..n][0] == steps[0];
    }
  }

  /** After a run a tile is dirty exactly if a call marked it with no encode since. */
  ghost predicate DirtyIsMarked(steps: seq<Step>, id: DisplayId, lane: Lane) {
    forall t :: t in lane.fb.dirty <==> MarkedAround(steps, id, |steps|, t)
  }

  lemma MarkedAroundLast(steps: seq<Step>, id: DisplayId, a: nat, t: Tile)
    requires steps != [] && a <= |steps| - 1
    ensures var n := |steps| - 1;
            MarkedAround(steps, id, a, t) <==> MarkedAround(steps[..n], id, a, t) || MarksTile(steps[n], id, t)
  {
    var n := |steps| - 1;
    var before := steps[..n];
    if MarkedAround(before, id, a, t) {
      var b: nat :| b < n && MarksTile(before[b], id, t) && NoEncode(before, id, b, a);
      assert NoEncode(steps, id, b, a);
    }
    if MarksTile(steps[n], id, t) { assert NoEncode(steps, id, n, a); }
    if MarkedAround(steps, id, a, t) && !MarksTile(steps[n], id, t) {
      var b: nat :| b < |steps| && MarksTile(steps[b], id, t) && NoEncode(steps, id, b, a);
      assert before[b] == steps[b] && NoEncode(before, id, b, a);
    }
  }

  lemma MarkedToEnd(steps: seq<Step>, id: DisplayId, t: Tile)
    requires steps != []
    ensures var n := |steps| - 1;
            MarkedAround(steps, id, n + 1, t)
            <==> (MarkedAround(steps[..n], id, n, t) && !Encodes(steps[n], id)) || MarksTile(steps[n], id, t)
  {
    var n := |steps| - 1;
    var before := steps[..n];
    if MarkedAround(before, id, n, t) && !Encodes(steps[n], id) {
      var b: nat :| b < n && MarksTile(before[b], id, t) && NoEncode(before, id, b, n);
      assert NoEncode(steps, id, b, n + 1);
    }
    if MarksTile(steps[n], id, t) { assert NoEncode(steps, id, n, n + 1); }
    if MarkedAround(steps, id, n + 1, t) && !MarksTile(steps[n], id, t) {
      var b: nat :| b < |steps| && MarksTile(steps[b], id, t) && NoEncode(steps, id, b, n + 1);
      assert before[b] == steps[b] && NoEncode(before, id, b, n);
    }
  }

  lemma UnmarkedWriteLast(steps: seq<Step>, id: DisplayId, k: nat)
    requires steps != []
    ensures var n := |steps| - 1;
            HasUnmarkedWrite(steps, id, k)
            <==> (HasUnmarkedWrite(steps[..n], id, k) && !MarksTile(steps[n], id, TileOf(k)))
                 || UnmarkedWrite(steps, id, k, n)
  {
    var n := |steps| - 1;
    forall a: nat | a < n
      ensures UnmarkedWrite(steps, id, k, a)
         <==> UnmarkedWrite(steps[..n], id, k, a) && !MarksTile(steps[n], id, TileOf(k))
    {
      MarkedAroundLast(steps, id, a, TileOf(k));
    }
    if HasUnmarkedWrite(steps[..n], id, k) && !MarksTile(steps[n], id, TileOf(k)) {
      var a: nat :| UnmarkedWrite(steps[..n], id, k, a);
      assert UnmarkedWrite(steps, id, k, a);
    }
    if HasUnmarkedWrite(steps, id, k) && !UnmarkedWrite(steps, id, k, n) {
      var a: nat :| UnmarkedWrite(steps, id, k, a);
      assert UnmarkedWrite(steps[..n], id, k, a);
    }
  }

  lemma DirtyAfterStep(s: System, step: Step, id: DisplayId, t: Tile)
    requires Enabled(s, step) && Tidy(s.Get(id))
    ensures t in Apply(s, step).Get(id).fb.dirty
       <==> (t in s.Get(id).fb.dirty && !Encodes(step, id)) || MarksTile(step, id, t)
  {
    if step.Modify? && step.id == id { DirtyAfterDraws(s.Get(id), step.draws, t); }
  }

  lemma OwedAfterStep(s: System, step: Step, id: DisplayId, k: nat)
    requires Enabled(s, step) && Tidy(s.Get(id))
    ensures Tidy(Apply(s, step).Get(id))
    ensures k in Apply(s, step).Get(id).owed
       <==> (k in s.Get(id).owed && !MarksTile(step, id, TileOf(k)))
            || (Writes(step, id, k) && TileOf(k) !in Apply(s, step).Get(id).fb.dirty)
  {
    if step.Modify? && step.id == id {
      forall p: nat ensures p in DrawAll(s.Get(id), step.draws).owed
           <==> (p in s.Get(id).owed || PokedIn(step.draws, p)) && TileOf(p) !in DrawAll(s.Get(id), step.draws).fb.dirty
      {
        OwedAfterDraws(s.Get(id), step.draws, p);
      }
      DirtyAfterDraws(s.Get(id), step.draws, TileOf(k));
    }
  }

  lemma {:induction false} MarksOfRun(steps: seq<Step>, id: DisplayId)
    requires Runnable(Start(), steps)
    ensures var lane := After(Start(), steps).Get(id); Tidy(lane) && DirtyIsMarked(steps, id, lane)
    decreases |steps|
  {
    if steps == [] {
    } else {
      var n := |steps| - 1;
      LastStep(Start(), steps);
      MarksOfRun(steps[..n], id);
      var before := After(Start(), steps[..n]);
      OwedAfterStep(before, steps[n], id, 0);
      forall t
        ensures t in After(Start(), steps).Get(id).fb.dirty <==> MarkedAround(steps, id, |steps|, t)
      {
        DirtyAfterStep(before, steps[n], id, t);
        MarkedToEnd(steps, id, t);
      }
    }
  }

  /** After any run from power-up, failed writes included, a pixel is owed exactly if one of the direct writes to it
      has no mark of its tile around it: none in its closure or later, and none earlier that was still pending. */
  lemma {:induction false} OwedIsUnmarked(steps: seq<Step>, id: DisplayId, k: nat)
    requires Runnable(Start(), steps)
    ensures k in After(Start(), steps).Get(id).owed <==> HasUnmarkedWrite(steps, id, k)
    decreases |steps|
  {
    if steps == [] {
    } else {
      var n := |steps| - 1;
      var t := TileOf(k);
      LastStep(Start(), steps);
      OwedIsUnmarked(steps[..n], id, k);
      MarksOfRun(steps[..n], id);
      MarksOfRun(steps, id);
      OwedAfterStep(After(Start(), steps[..n]), steps[n], id, k);
      UnmarkedWriteLast(steps, id, k);
      if Writes(steps[n], id, k) {
        MarkedAroundLast(steps, id, n, t);
        MarkedToEnd(steps, id, t);
      }
    }
  }

  // ----- which tiles failed writes have cost -----

  ghost predicate FailsFor(step: Step, id: DisplayId) {
    step.WriteFailed? && step.id == id
  }

  /** The state before step `a` of a run from power-up. */
  ghost function StateAt(steps: seq<Step>, a: nat): System
    requires a <= |steps|
  {
    if Runnable(Start(), steps[..a]) then After(Start(), steps[..a]) else Start()
  }

  lemma StateAtPrefix(steps: seq<Step>, n: nat, a: nat)
    requires a <= n <= |steps|
    ensures StateAt(steps[..n], a) == StateAt(steps, a)
  {
    assert steps[..n][..a] == steps[..a];
  }

  /** Step `a` is a failed write of a transfer that held the tile. */
  ghost predicate FailedTile(steps: seq<Step>, id: DisplayId, t: Tile, a: nat) {
    a < |steps| && FailsFor(steps[a], id) && InFlightTile(StateAt(steps, a).Get(id), t)
  }

  ghost predicate InFlightTile(lane: Lane, t: Tile) {
    lane.flight.Some? && t in lane.flight.value.snap.dirty
  }

  /** Step `e` encodes the display with the tile dirty. */
  ghost predicate EncodesTile(steps: seq<Step>, id: DisplayId, t: Tile, e: nat) {
    e < |steps| && Encodes(steps[e], id) && t in StateAt(steps, e).Get(id).fb.dirty
  }

  ghost predicate NotEncodedFrom(steps: seq<Step>, id: DisplayId, t: Tile, from: nat) {
    forall e: nat :: from <= e < |steps| ==> !EncodesTile(steps, id, t, e)
  }

  ghost predicate CostBy(steps: seq<Step>, id: DisplayId, t: Tile, a: nat) {
    FailedTile(steps, id, t, a) && NotEncodedFrom(steps, id, t, a + 1)
  }

  lemma PrefixTiles(steps: seq<Step>, id: DisplayId, t: Tile, n: nat, e: nat)
    requires e < n <= |steps|
    ensures FailedTile(steps, id, t, e) <==> FailedTile(steps[..n], id, t, e)
    ensures EncodesTile(steps, id, t, e) <==> EncodesTile(steps[..n], id, t, e)
  {
    StateAtPrefix(steps, n, e);
  }

  lemma NotEncodedLast(steps: seq<Step>, id: DisplayId, t: Tile, from: nat)
    requires steps != [] && from <= |steps| - 1
    ensures var n := |steps| - 1;
            NotEncodedFrom(steps, id, t, from)
            <==> NotEncodedFrom(steps[..n], id, t, from) && !EncodesTile(steps, id, t, n)
  {
    var n := |steps| - 1;
    forall e: nat | e < n ensures EncodesTile(steps, id, t, e) <==> EncodesTile(steps[..n], id, t, e) {
      PrefixTiles(steps, id, t, n, e);
    }
  }

  lemma CostByLast(steps: seq<Step>, id: DisplayId, t: Tile, a: nat)
    requires a < |steps| - 1
    ensures var n := |steps| - 1;
            CostBy(steps, id, t, a) <==> CostBy(steps[..n], id, t, a) && !EncodesTile(steps, id, t, n)
  {
    NotEncodedLast(steps, id, t, a + 1);
    PrefixTiles(steps, id, t, |steps| - 1, a);
  }

  ghost predicate HasCost(steps: seq<Step>, id: DisplayId, t: Tile) {
    exists a: nat :: CostBy(steps, id, t, a)
  }

  lemma HasCostLast(steps: seq<Step>, id: DisplayId, t: Tile)
    requires steps != []
    ensures var n := |steps| - 1;
            HasCost(steps, id, t)
            <==> (HasCost(steps[..n], id, t) && !EncodesTile(steps, id, t, n)) || FailedTile(steps, id, t, n)
  {
    var n := |steps| - 1;
    if HasCost(steps[..n], id, t) && !EncodesTile(steps, id, t, n) {
      var a: nat :| CostBy(steps[..n], id, t, a);
      CostByLast(steps, id, t, a);
      assert CostBy(steps, id, t, a);
    }
    if FailedTile(steps, id, t, n) { assert CostBy(steps, id, t, n); }
    if HasCost(steps, id, t) && !FailedTile(steps, id, t, n) {
      var a: nat :| CostBy(steps, id, t, a);
      CostByLast(steps, id, t, a);
      assert CostBy(steps[..n], id, t, a);
    }
  }

  lemma LostAfterStep(s: System, step: Step, id: DisplayId, t: Tile)
    requires Enabled(s, step)
    ensures t in Apply(s, step).Get(id).lost
       <==> (t in s.Get(id).lost && !(Encodes(step, id) && t in s.Get(id).fb.dirty))
            || (FailsFor(step, id) && InFlightTile(s.Get(id), t))
  {
    if step.Modify? { DrawsKeepRest(s.Get(step.id), step.draws); }
  }

  /** After any run from power-up a tile counts as lost exactly if a failed write held it and no later encode of
      the display did. */
  lemma {:induction false} LostIsFailed(steps: seq<Step>, id: DisplayId, t: Tile)
    requires Runnable(Start(), steps)
    ensures t in After(Start(), steps).Get(id).lost <==> HasCost(steps, id, t)
    decreases |steps|
  {
    if steps == [] {
    } else {
      var n := |steps| - 1;
      LastStep(Start(), steps);
      LostIsFailed(steps[..n], id, t);
      LostAfterStep(StateAt(steps, n), steps[n], id, t);
      HasCostLast(steps, id, t);
    }
  }

  // ----- runs in which every direct write is marked and no write fails -----

  lemma {:induction false} NothingLostWithoutFailure(s: System, steps: seq<Step>, id: DisplayId)
    requires Runnable(s, steps) && s.Get(id).lost == {}
    requires forall i :: 0 <= i < |steps| ==> !FailsFor(steps[i], id)
    ensures After(s, steps).Get(id).lost == {}
    decreases |steps|
  {
    if steps == [] {
    } else {
      var step := steps[0];
      assert !FailsFor(step, id);
      if step.Modify? { DrawsKeepRest(s.Get(step.id), step.draws); }
      NothingLostWithoutFailure(Apply(s, step), steps[1..], id);
    }
  }

  /** The screen with the write under way applied equals the framebuffer on every clean tile; with nothing
      dirty and nothing under way it equals the framebuffer. */
  ghost predicate UpToDate(s: System, id: DisplayId) {
    var lane := s.Get(id);
    && AgreesOnClean(lane.fb, Expected(lane, s.screens.Get(id)))
    && (lane.flight.None? && lane.fb.dirty == {} ==> s.screens.Get(id) == lane.fb.pixels)
  }

  lemma ClearIsUpToDate(s: System, id: DisplayId)
    requires Coherent(s) && s.Get(id).owed == {} && s.Get(id).lost == {}
    ensures UpToDate(s, id)
  {
    var lane := s.Get(id);
    assert Tracks(id, lane, s.screens.Get(id));
    assert forall k: nat :: Settled(lane, k) <==> TileOf(k) !in lane.fb.dirty;
  }

  lemma StartCoherent()
    ensures Coherent(Start())
  {
  }

  /** No modification is lost: after any run from power-up in which no write of the display fails and each
      directly written tile is marked, in the same closure, later, or earlier with the mark still pending,
      the display is up to date. */
  lemma NoUpdateLost(steps: seq<Step>, id: DisplayId)
    requires Runnable(Start(), steps)
    requires forall i :: 0 <= i < |steps| ==> !FailsFor(steps[i], id)
    requires forall a: nat, k: nat :: a < |steps| && Writes(steps[a], id, k) ==>
               MarkedAround(steps, id, a, TileOf(k))
    ensures UpToDate(After(Start(), steps), id)
  {
    StartCoherent();
    EveryRunCoherent(Start(), steps);
    NothingLostWithoutFailure(Start(), steps, id);
    forall k: nat ensures k !in After(Start(), steps).Get(id).owed { OwedIsUnmarked(steps, id, k); }
    ClearIsUpToDate(After(Start(), steps), id);
  }

  ghost predicate AgreesOnClean(fb: Fb, screen: Screen) {
    forall k: nat :: k < PIXELS && TileOf(k) !in fb.dirty ==> screen[k] == fb.pixels[k]
  }

  /** Right after an encode is delivered with nothing drawn in between, the screen shows the
      framebuffer on every pixel, dirty before or clean, that is neither owed nor lost outside this frame. */
  lemma EncodeThenDeliver(s: System, id: DisplayId, payload: seq<u8>, k: nat)
    requires Coherent(s) && Enabled(s, Encode(id, payload)) && k < PIXELS
    requires k !in s.Get(id).owed && (TileOf(k) in s.Get(id).lost ==> TileOf(k) in s.Get(id).fb.dirty)
    ensures var mid := Apply(s, Encode(id, payload));
            && Enabled(mid, Delivered(id))
            && Apply(mid, Delivered(id)).screens.Get(id)[k] == s.Get(id).fb.pixels[k]
  {
    var mid := Apply(s, Encode(id, payload));
    EncodeTracks(id, s.Get(id), s.screens.Get(id), payload);
    OneLaneTracks(s, id, Encoded(s.Get(id), payload), s.screens.Get(id));
    DeliveryTracks(id, mid.Get(id), mid.screens);
    DeliveryShowsExpected(mid, id);
    assert Settled(mid.Get(id), k);
  }

  // ----- the two exclusions are real -----

  /** A pixel that is stale and that nothing pending or under way will bring up to date. */
  ghost predicate Stale(s: System, id: DisplayId, k: nat) {
    var lane := s.Get(id);
    && k < PIXELS && TileOf(k) !in lane.fb.dirty
    && (lane.flight.Some? ==> TileOf(k) !in lane.flight.value.snap.dirty)
    && s.screens.Get(id)[k] != lane.fb.pixels[k]
  }

  ghost predicate LeavesAlone(step: Step, id: DisplayId, k: nat) {
    !MarksTile(step, id, TileOf(k)) && !Writes(step, id, k)
  }

  lemma {:induction false} DrawsKeepPixel(lane: Lane, draws: seq<Draw>, k: nat)
    requires k < PIXELS && !MarkedIn(draws, TileOf(k)) && !PokedIn(draws, k)
    ensures DrawAll(lane, draws).fb.pixels[k] == lane.fb.pixels[k]
    ensures TileOf(k) in DrawAll(lane, draws).fb.dirty ==> TileOf(k) in lane.fb.dirty
    decreases |draws|
  {
    if draws == [] {
    } else {
      MarkedInSplit(draws, TileOf(k));
      PokedInSplit(draws, k);
      DrawKeepsPixel(lane, draws[0], k);
      DrawsKeepPixel(DrawLane(lane, draws[0]), draws[1..], k);
    }
  }

  lemma DrawKeepsPixel(lane: Lane, draw: Draw, k: nat)
    requires k < PIXELS && TileOf(k) !in draw.Marks() && !Pokes(draw, k)
    ensures DrawLane(lane, draw).fb.pixels[k] == lane.fb.pixels[k]
    ensures TileOf(k) in DrawLane(lane, draw).fb.dirty ==> TileOf(k) in lane.fb.dirty
  {
    TileOnGrid(k);
  }

  lemma StaleStep(s: System, step: Step, id: DisplayId, k: nat)
    requires Coherent(s) && Enabled(s, step) && Stale(s, id, k) && LeavesAlone(step, id, k)
    ensures Stale(Apply(s, step), id, k)
  {
    if step.Delivered? { DeliveryShowsExpected(s, step.id); }
    if step.Modify? {
      DrawsKeepRest(s.Get(step.id), step.draws);
      if step.id == id { DrawsKeepPixel(s.Get(id), step.draws, k); }
    }
  }

  /** A stale pixel stays stale on every later run, whatever else is drawn, until its tile is marked again or
      the pixel itself is written. */
  lemma {:induction false} StaleStays(s: System, steps: seq<Step>, id: DisplayId, k: nat)
    requires Coherent(s) && Runnable(s, steps) && Stale(s, id, k)
    requires forall i :: 0 <= i < |steps| ==> LeavesAlone(steps[i], id, k)
    ensures Stale(After(s, steps), id, k)
    decreases |steps|
  {
    if steps == [] {
    } else {
      assert LeavesAlone(steps[0], id, k);
      StepKeepsCoherent(s, steps[0]);
      StaleStep(s, steps[0], id, k);
      StaleStays(Apply(s, steps[0]), steps[1..], id, k);
    }
  }

  /** A failed write leaves its display at rest with the framebuffer as it was encoded. The screen then shows
      the framebuffer exactly if it did on every clean tile and the write got that far on every dirty one; when
      nothing got through, exactly if it did before the encode. */
  lemma FailureEndsAtRest(s: System, id: DisplayId, payload: seq<u8>, shown: Screen)
    requires Enabled(s, Encode(id, payload)) && SameOutside(s.Get(id).fb.dirty, s.screens.Get(id), shown)
    ensures var sent := Apply(s, Encode(id, payload));
            && Enabled(sent, WriteFailed(id, shown))
            && var end := Apply(sent, WriteFailed(id, shown));
            var fb := s.Get(id).fb;
            && end.Get(id).flight.None? && end.Get(id).fb == fb.(dirty := {})
            && end.screens == s.screens.Put(id, shown)
            && (end.screens.Get(id) == end.Get(id).fb.pixels <==>
                  AgreesOnClean(fb, s.screens.Get(id))
                  && forall k: nat :: k < PIXELS && TileOf(k) in fb.dirty ==> shown[k] == fb.pixels[k])
            && (shown == s.screens.Get(id) ==>
                  (end.screens.Get(id) == end.Get(id).fb.pixels <==> s.screens.Get(id) == fb.pixels))
  {
    var fb, screen := s.Get(id).fb, s.screens.Get(id);
    assert forall k: nat :: k < PIXELS && TileOf(k) !in fb.dirty ==> shown[k] == screen[k];
    if shown == fb.pixels {
      assert forall k: nat :: k < PIXELS && TileOf(k) !in fb.dirty ==> screen[k] == shown[k] == fb.pixels[k];
    }
  }

  /** A failed write is not retried: a pixel it did not bring up to date stays stale on every later run until its
      tile is marked again or the pixel is written. */
  lemma FailedWriteStaysLost(s: System, id: DisplayId, payload: seq<u8>, shown: Screen, k: nat, steps: seq<Step>)
    requires Coherent(s) && Enabled(s, Encode(id, payload))
    requires SameOutside(s.Get(id).fb.dirty, s.screens.Get(id), shown)
    requires k < PIXELS && shown[k] != s.Get(id).fb.pixels[k]
    requires var sent := Apply(s, Encode(id, payload));
             Enabled(sent, WriteFailed(id, shown)) && Runnable(Apply(sent, WriteFailed(id, shown)), steps)
    requires forall i :: 0 <= i < |steps| ==> LeavesAlone(steps[i], id, k)
    ensures Stale(After(Apply(Apply(s, Encode(id, payload)), WriteFailed(id, shown)), steps), id, k)
  {
    var sent := Apply(s, Encode(id, payload));
    StepKeepsCoherent(s, Encode(id, payload));
    StepKeepsCoherent(sent, WriteFailed(id, shown));
    FailureEndsAtRest(s, id, payload, shown);
    StaleStays(Apply(sent, WriteFailed(id, shown)), steps, id, k);
  }

  ghost function OneTileFilled(): Fb {
    Filled(Start().left.fb, 0, 0, 16, 16, 0xFFFF)
  }

  lemma OneTileFrame() returns (payload: seq<u8>)
    ensures OneTileFilled().dirty == {Tile(0, 0)} && IsFrame(Left, OneTileFilled(), payload)
  {
    var fb := OneTileFilled();
    assert forall t :: t in RectTiles(0, 0, 16, 16) <==> t == Tile(0, 0);
    var runs := [Run(0, 0, 0)];
    assert runs[0].Covers(Tile(0, 0));
    assert Canonical(runs, fb.dirty);
    payload := FrameBytes(Left, fb.pixels, runs);
    assert FrameFor(Left, fb, payload, runs);
  }

  lemma OneTileDrawn()
    ensures var drawn := Apply(Start(), Modify(Left, [FillBox(0, 0, 16, 16, Rgb(255, 255, 255))]));
            drawn.left.fb == OneTileFilled() && drawn.left.flight.None? && drawn.screens == Start().screens
  {
    var draws := [FillBox(0, 0, 16, 16, Rgb(255, 255, 255))];
    var lane := Start().left;
    assert DrawAll(DrawLane(lane, draws[0]), draws[1..]) == DrawLane(lane, draws[0]);
  }

  /** Such a state is reached: from power-up, one filled tile encoded and then lost in a failed write leaves
      the scheduler with nothing dirty, nothing under way and a stale screen. */
  lemma FailedWriteLosesUpdate() returns (payload: seq<u8>)
    ensures var drawn := Apply(Start(), Modify(Left, [FillBox(0, 0, 16, 16, Rgb(255, 255, 255))]));
            && Enabled(drawn, Encode(Left, payload))
            && var sent := Apply(drawn, Encode(Left, payload));
            && Enabled(sent, WriteFailed(Left, drawn.screens.left))
            && var s := Apply(sent, WriteFailed(Left, drawn.screens.left));
            s.left.flight.None? && s.left.fb.dirty == {} && s.screens.left != s.left.fb.pixels && Stale(s, Left, 0)
  {
    payload := OneTileFrame();
    OneTileDrawn();
    var drawn := Apply(Start(), Modify(Left, [FillBox(0, 0, 16, 16, Rgb(255, 255, 255))]));
    FailureEndsAtRest(drawn, Left, payload, drawn.screens.left);
    assert OneTileFilled().pixels[0] == 0xFFFF && drawn.screens.left[0] == 0;
  }

  /** A closure with one direct write keeps an up-to-date display up to date exactly if the tile is already
      dirty or the value is the one already there. Otherwise, with nothing under way, the pixel is stale. */
  lemma UnmarkedWriteStaysInvisible(s: System, id: DisplayId, k: Place, v: u16)
    requires UpToDate(s, id)
    ensures var fb, next := s.Get(id).fb, Apply(s, Modify(id, [Poke(k, v)]));
            && (UpToDate(next, id) <==> TileOf(k) in fb.dirty || v == fb.pixels[k])
            && (!UpToDate(next, id) && s.Get(id).flight.None? ==> Stale(next, id, k))
  {
    var lane, draws := s.Get(id), [Poke(k, v)];
    assert DrawAll(DrawLane(lane, draws[0]), draws[1..]) == DrawLane(lane, draws[0]);
    var next := Apply(s, Modify(id, draws));
    assert next.Get(id).fb == Poked(lane.fb, k, v) && next.Get(id).flight == lane.flight;
    assert Expected(next.Get(id), next.screens.Get(id)) == Expected(lane, s.screens.Get(id));
    if v == lane.fb.pixels[k] {
      assert next.Get(id).fb.pixels == lane.fb.pixels;
    } else if TileOf(k) !in lane.fb.dirty {
      assert Expected(lane, s.screens.Get(id))[k] == lane.fb.pixels[k] != next.Get(id).fb.pixels[k];
    }
  }

  // ----- the handle shared by clients and the encoder -----

  ghost function DrawnAll(fb: Fb, draws: seq<Draw>): Fb
    decreases |draws|
  {
    if draws == [] then fb else DrawnAll(Drawn(fb, draws[0]), draws[1..])
  }

  lemma {:induction false} LaneDrawsFramebuffer(lane: Lane, draws: seq<Draw>)
    ensures DrawAll(lane, draws).fb == DrawnAll(lane.fb, draws)
    decreases |draws|
  {
    if draws == [] {
    } else {
      LaneDrawsFramebuffer(DrawLane(lane, draws[0]), draws[1..]);
    }
  }

  class DisplayHandle {
    const id: DisplayId
    const fb: Framebuffer

    constructor (id: DisplayId)
      ensures this.id == id && fb.Valid() && fresh(fb.Repr) && fb.View() == Start().Get(id).fb
    {
      this.id := id;
      fb := new Framebuffer();
    }

    /** Runs a closure of drawing calls under the lock. */
    method ModifyWith(draws: seq<Draw>)
      requires fb.Valid()
      modifies fb.Repr
      ensures fb.Valid() && fb.View() == DrawnAll(old(fb.View()), draws)
    {
      for i := 0 to |draws|
        invariant fb.Valid() && DrawnAll(fb.View(), draws[i..]) == DrawnAll(old(fb.View()), draws)
      {
        assert draws[i..][1..] == draws[i + 1..];
        match draws[i] {
          case ClearAll(c) => fb.Clear(c);
          case SetPx(x, y, c) => fb.SetPixel(x, y, c);
          case FillBox(x, y, w, h, c) => fb.FillRect(x, y, w, h, c);
          case TouchBox(x, y, w, h) => fb.Touch(x, y, w, h);
          case Poke(k, v) => fb.WritePixel(k, v);
        }
      }
    }

    /** The task's locked section: nothing when clean, otherwise the frame to write. */
    method TakeFrame() returns (payload: Option<seq<u8>>)
      requires fb.Valid()
      modifies fb.Repr
      ensures fb.Valid()
      ensures payload.None? <==> old(fb.View()).dirty == {}
      ensures payload.None? ==> fb.View() == old(fb.View())
      ensures payload.Some? ==>
                IsFrame(id, old(fb.View()), payload.value) && fb.View() == old(fb.View()).(dirty := {})
    {
      var dirty := fb.IsDirty();
      if !dirty { return None; }
      var frame := EncodeFrame(id, fb);
      return Some(frame);
    }
  }
}
