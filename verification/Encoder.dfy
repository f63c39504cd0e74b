/** Turning a dirty framebuffer into one transfer, and what that transfer does to the device. */
module Encoder {
  import opened Words
  import opened Tiles
  import opened Wire
  import opened Framebuffers

  const FRAME_MAX := 261816
  const SLOT_SIZE := 524288

  predicate OnScreen(rect: Rect) {
    rect.w > 0 && rect.h > 0 && rect.x + rect.w <= WIDTH && rect.y + rect.h <= HEIGHT
  }

  /** The pixels of a rect in stream order. */
  function Crop(pixels: Screen, x: nat, y: nat, w: nat, h: nat): (s: seq<u16>)
    requires w > 0 && x + w <= WIDTH && y + h <= HEIGHT
    ensures |s| == h * w
  {
    seq(h * w, (i: nat) requires i < h * w => CropPixel(pixels, x, y, w, h, i))
  }

  function CropPixel(pixels: Screen, x: nat, y: nat, w: nat, h: nat, i: nat): u16
    requires w > 0 && x + w <= WIDTH && y + h <= HEIGHT && i < h * w
  {
    CropBounds(i, w, h);
    var col, row := i % w, i / w;
    PixelAt(pixels, x + col, y + row)
  }

  function PixelAt(pixels: Screen, x: nat, y: nat): u16
    requires x < WIDTH && y < HEIGHT
  {
    pixels[y * WIDTH + x]
  }

  lemma CropBounds(i: nat, w: nat, h: nat)
    requires w > 0 && i < h * w
    ensures 0 <= i / w < h && 0 <= i % w < w
  {
    assert i == (i / w) * w + i % w;
    if i / w >= h {
      Distribute(i / w, h, w);
    }
  }

  /** One more screen row extends the crop by that row's slice. */
  lemma CropRow(pixels: Screen, x: nat, y: nat, w: nat, h: nat)
    requires w > 0 && x + w <= WIDTH && y + h + 1 <= HEIGHT
    ensures Crop(pixels, x, y, w, h + 1)
         == Crop(pixels, x, y, w, h) + pixels[(y + h) * WIDTH + x..(y + h) * WIDTH + x + w]
  {
    var row := pixels[(y + h) * WIDTH + x..(y + h) * WIDTH + x + w];
    var more := Crop(pixels, x, y, w, h + 1);
    assert (h + 1) * w == h * w + w;
    forall i: nat | i < (h + 1) * w ensures more[i] == (Crop(pixels, x, y, w, h) + row)[i] {
      if i >= h * w {
        DivModUnique(h, w, i - h * w);
      }
    }
  }

  predicate Solid(native: seq<u16>) {
    forall i :: 0 <= i < |native| ==> native[i] == native[0]
  }

  /** One repeat command for a solid rect, otherwise a blit command and its pixels. */
  function PixelCommand(native: seq<u16>): seq<u8>
    requires 0 < |native| <= PIXELS
  {
    var pairs := |native| / 2;
    if Solid(native) then RepeatBytes(pairs, Be16(native[0]) + Be16(native[0]))
    else BlitBytes(pairs) + Pack(native)
  }

  function RectBytes(id: DisplayId, pixels: Screen, rect: Rect): seq<u8>
    requires OnScreen(rect)
  {
    CropIsPositive(rect);
    HeaderBytes(id, rect) + PixelCommand(Crop(pixels, rect.x, rect.y, rect.w, rect.h))
  }

  lemma CropIsPositive(rect: Rect)
    requires OnScreen(rect)
    ensures 0 < rect.h * rect.w <= PIXELS
  {
    ScaleAtLeast(rect.h, rect.w);
    Distribute(HEIGHT, rect.h, rect.w);
  }

  function RectOf(run: Run): (rect: Rect)
    requires run.row < ROWS && run.c0 <= run.c1 < COLS
    ensures OnScreen(rect)
  {
    Rect(run.c0 * TILE, run.row * TILE, (run.c1 - run.c0 + 1) * TILE, TILE)
  }

  function CropRun(pixels: Screen, run: Run): seq<u16>
    requires run.row < ROWS && run.c0 <= run.c1 < COLS
  {
    var rect := RectOf(run);
    Crop(pixels, rect.x, rect.y, rect.w, rect.h)
  }

  ghost predicate InGridAll(runs: seq<Run>) {
    forall i :: 0 <= i < |runs| ==> runs[i].InGrid()
  }

  ghost function FrameBytes(id: DisplayId, pixels: Screen, runs: seq<Run>): seq<u8>
    requires InGridAll(runs)
  {
    if runs == [] then FLUSH_BYTES + END_BYTES
    else RectBytes(id, pixels, RectOf(runs[0])) + FrameBytes(id, pixels, runs[1..])
  }

  /** `payload` is the frame of this framebuffer value, with the one canonical list of runs. */
  ghost predicate IsFrame(id: DisplayId, fb: Fb, payload: seq<u8>) {
    exists runs :: Canonical(runs, fb.dirty) && FrameFor(id, fb, payload, runs)
  }

  ghost predicate FrameFor(id: DisplayId, fb: Fb, payload: seq<u8>, runs: seq<Run>) {
    InGridAll(runs) && payload == FrameBytes(id, fb.pixels, runs)
  }

  lemma CanonicalInGrid(runs: seq<Run>, dirty: set<Tile>)
    requires Canonical(runs, dirty)
    ensures InGridAll(runs)
  {
    forall i | 0 <= i < |runs| ensures runs[i].InGrid() {
      assert Maximal(runs[i], dirty);
    }
  }

  // ----- the encoder -----

  method Header(id: DisplayId, rect: Rect) returns (bytes: seq<u8>)
    ensures bytes == HeaderBytes(id, rect)
  {
    var buffer := new u8[HEADER_LEN];
    var r := EncodeHeader(id, rect, buffer, 0);
    return buffer[..];
  }

  method BlitCommand(pairs: u32) returns (bytes: seq<u8>)
    ensures bytes == BlitBytes(pairs)
  {
    var buffer := new u8[CMD_LEN];
    var r := EncodeBlitCmd(pairs, buffer, 0);
    return buffer[..];
  }

  method RepeatCommand(pairs: u32, pair: seq<u8>) returns (bytes: seq<u8>)
    requires |pair| == 4
    ensures bytes == RepeatBytes(pairs, pair)
  {
    var buffer := new u8[CMD_LEN];
    var r := EncodeRepeatCmd(pairs, pair, buffer, 0);
    return buffer[..];
  }

  /** Flush and end, one after the other in one buffer. */
  method Tail() returns (bytes: seq<u8>)
    ensures bytes == FLUSH_BYTES + END_BYTES
  {
    var tail := new u8[2 * CMD_LEN];
    var flushed := EncodeFlushCmd(tail, 0);
    var ended := EncodeEndCmd(tail, flushed.written);
    return tail[..];
  }

  method Payload(native: seq<u16>) returns (bytes: seq<u8>)
    ensures bytes == Pack(native)
  {
    var buffer := new u8[2 * |native|];
    PackRgb565Be(native, buffer, 0);
    return buffer[..];
  }

  /** The rect's rows, collected into one contiguous list. */
  method Collect(fb: Framebuffer, x: nat, y: nat, w: nat, h: nat) returns (native: seq<u16>)
    requires fb.Valid() && w > 0 && x + w <= WIDTH && y + h <= HEIGHT
    ensures native == Crop(fb.View().pixels, x, y, w, h)
  {
    ghost var pixels := fb.View().pixels;
    native := [];
    for yy := y to y + h
      invariant native == Crop(pixels, x, y, w, yy - y)
    {
      CropRow(pixels, x, y, w, yy - y);
      native := native + fb.pixels[yy * WIDTH + x..yy * WIDTH + x + w];
    }
  }

  method EncodeRun(id: DisplayId, fb: Framebuffer, x: nat, y: nat, w: nat, h: nat, out: seq<u8>)
    returns (more: seq<u8>)
    requires fb.Valid() && w > 0 && h > 0 && x + w <= WIDTH && y + h <= HEIGHT
    ensures more == out + RectBytes(id, fb.View().pixels, Rect(x, y, w, h))
  {
    CropIsPositive(Rect(x, y, w, h));
    var header := Header(id, Rect(x, y, w, h));
    more := out + header;
    var native := Collect(fb, x, y, w, h);
    var pairs := |native| / 2;
    if Solid(native) {
      var be := Be16(native[0]);
      var repeated := RepeatCommand(pairs, be + be);
      more := more + repeated;
    } else {
      var blit := BlitCommand(pairs);
      var payload := Payload(native);
      more := more + blit + payload;
      assert more == out + (header + (blit + payload));
    }
  }

  method EstimateCapacity(runs: seq<Run>) returns (n: nat)
    requires InGridAll(runs)
    ensures n == Capacity(runs)
  {
    n := 0;
    for i := 0 to |runs|
      invariant n + Capacity(runs[i..]) == Capacity(runs)
    {
      var tiles := runs[i].c1 - runs[i].c0 + 1;
      var pixels := tiles * TILE * TILE;
      n := n + HEADER_LEN + CMD_LEN + pixels * 2;
      assert runs[i..][1..] == runs[i + 1..];
    }
    n := n + CMD_LEN * 2;
  }

  /** The tile run's pixel rectangle, clipped to the screen. */
  method EncodeTiles(id: DisplayId, fb: Framebuffer, run: Run, out: seq<u8>) returns (more: seq<u8>)
    requires fb.Valid() && run.InGrid()
    ensures more == out + RectBytes(id, fb.View().pixels, RectOf(run))
  {
    var Run(row, c0, c1) := run;
    var y := row * TILE;
    var x := c0 * TILE;
    var h := if TILE < HEIGHT - y then TILE else HEIGHT - y;
    var w := if (c1 - c0 + 1) * TILE < WIDTH - x then (c1 - c0 + 1) * TILE else WIDTH - x;
    assert Rect(x, y, w, h) == RectOf(run);
    more := EncodeRun(id, fb, x, y, w, h, out);
  }

  method EncodeRuns(id: DisplayId, fb: Framebuffer, runs: seq<Run>) returns (out: seq<u8>)
    requires fb.Valid() && InGridAll(runs)
    ensures out == FrameBytes(id, fb.View().pixels, runs)
  {
    ghost var pixels := fb.View().pixels;
    out := [];
    for i := 0 to |runs|
      invariant FrameSplit(id, pixels, runs, i, out)
    {
      FrameStep(id, pixels, runs, i, out);
      out := EncodeTiles(id, fb, runs[i], out);
    }
    assert runs[|runs|..] == [];
    var tail := Tail();
    out := out + tail;
  }

  /** `out` is what the frame holds before run `i`. */
  ghost predicate FrameSplit(id: DisplayId, pixels: Screen, runs: seq<Run>, i: nat, out: seq<u8>)
    requires InGridAll(runs) && i <= |runs|
  {
    FrameBytes(id, pixels, runs) == out + FrameBytes(id, pixels, runs[i..])
  }

  lemma FrameStep(id: DisplayId, pixels: Screen, runs: seq<Run>, i: nat, out: seq<u8>)
    requires InGridAll(runs) && i < |runs| && FrameSplit(id, pixels, runs, i, out)
    ensures FrameSplit(id, pixels, runs, i + 1, out + RectBytes(id, pixels, RectOf(runs[i])))
  {
    assert runs[i..][1..] == runs[i + 1..];
    AppendAssoc(out, RectBytes(id, pixels, RectOf(runs[i])), FrameBytes(id, pixels, runs[i + 1..]));
  }

  /** Encode every dirty run, close the transfer, mark everything clean. */
  method EncodeFrame(id: DisplayId, fb: Framebuffer) returns (out: seq<u8>)
    requires fb.Valid()
    modifies fb.Repr
    ensures fb.Valid() && fb.View() == old(fb.View()).(dirty := {})
    ensures IsFrame(id, old(fb.View()), out)
    ensures |out| <= FRAME_MAX
    ensures forall screens :: Interpret(screens, out)
                           == Some(screens.Put(id, Merge(screens.Get(id), old(fb.View()))))
  {
    ghost var was := fb.View();
    var runs := fb.dirty.Runs();
    CanonicalInGrid(runs, was.dirty);
    var capacity := EstimateCapacity(runs);
    out := EncodeRuns(id, fb, runs);
    assert FrameFor(id, was, out, runs);
    fb.dirty.Clear();
    FrameSize(id, was.pixels, runs, was.dirty);
    forall screens ensures Interpret(screens, out) == Some(screens.Put(id, Merge(screens.Get(id), was))) {
      FrameEffect(id, was, out, screens);
    }
  }

  // ----- the transfer decodes to the runs -----

  function FrameOps(id: DisplayId, pixels: Screen, runs: seq<Run>): seq<Op>
    requires forall i :: 0 <= i < |runs| ==> runs[i].row < ROWS && runs[i].c0 <= runs[i].c1 < COLS
  {
    if runs == [] then [Flush, End]
    else
      [Frame(id, RectOf(runs[0])), Pixels(CropRun(pixels, runs[0]))] + FrameOps(id, pixels, runs[1..])
  }

  lemma SolidIsRepeat(native: seq<u16>)
    requires Solid(native) && |native| > 0 && |native| % 2 == 0
    ensures PairRepeated(|native| / 2, native[0], native[0]) == native
  {
  }

  /** A tile run is 16 rows of a multiple of 16 pixels. */
  lemma RunArea(pixels: Screen, run: Run)
    requires run.InGrid()
    ensures 0 < |CropRun(pixels, run)| <= PIXELS && |CropRun(pixels, run)| % 2 == 0
  {
    var rect := RectOf(run);
    assert rect.h * rect.w == 16 * rect.w;
  }

  /** Whichever command was chosen, the device reads the same pixels from it. */
  lemma LexPixelCommand(native: seq<u16>, rest: seq<u8>)
    requires 0 < |native| <= PIXELS && |native| % 2 == 0
    ensures LexOp(PixelCommand(native) + rest) == Some((Pixels(native), |PixelCommand(native)|))
  {
    var pairs := |native| / 2;
    if Solid(native) {
      LexRepeat(pairs, native[0], native[0], rest);
      SolidIsRepeat(native);
    } else {
      LexBlit(pairs, native, rest);
    }
  }

  lemma LexRun(id: DisplayId, pixels: Screen, run: Run, rest: seq<u8>, ops: seq<Op>)
    requires run.InGrid() && Lex(rest) == Some(ops)
    ensures Lex(RectBytes(id, pixels, RectOf(run)) + rest)
         == Some([Frame(id, RectOf(run)), Pixels(CropRun(pixels, run))] + ops)
  {
    var native := CropRun(pixels, run);
    RunArea(pixels, run);
    LexPixelCommand(native, rest);
    LexBlock(id, RectOf(run), PixelCommand(native), native, rest, ops);
  }

  /** The byte stream is unambiguous: the device reads back exactly one rect with the
      framebuffer's pixels per run, in run order, then one flush and one end, and no byte is left. */
  lemma {:induction false} FrameLexes(id: DisplayId, pixels: Screen, runs: seq<Run>)
    requires InGridAll(runs)
    ensures Lex(FrameBytes(id, pixels, runs)) == Some(FrameOps(id, pixels, runs))
  {
    if runs == [] {
      LexTail();
    } else {
      var rest := FrameBytes(id, pixels, runs[1..]);
      FrameLexes(id, pixels, runs[1..]);
      LexRun(id, pixels, runs[0], rest, FrameOps(id, pixels, runs[1..]));
    }
  }

  // ----- the transfer copies the dirty tiles -----

  /** The screen with the framebuffer's dirty tiles copied over it. */
  ghost function Merge(screen: Screen, fb: Fb): Screen {
    seq(PIXELS, (k: nat) requires k < PIXELS => if TileOf(k) in fb.dirty then fb.pixels[k] else screen[k])
  }

  lemma CropPlace(pixels: Screen, rect: Rect, k: nat)
    requires OnScreen(rect) && k < PIXELS && rect.Contains(k)
    ensures rect.Place(k) < rect.h * rect.w
    ensures Crop(pixels, rect.x, rect.y, rect.w, rect.h)[rect.Place(k)] == pixels[k]
  {
    var q := k / WIDTH - rect.y;
    DivModUnique(q, rect.w, k % WIDTH - rect.x);
    Distribute(rect.h, q, rect.w);
  }

  lemma PaintCrop(screen: Screen, pixels: Screen, run: Run)
    requires run.InGrid()
    ensures Paint(screen, RectOf(run), 0, CropRun(pixels, run))
         == seq(PIXELS, (k: nat) requires k < PIXELS => if run.Covers(TileOf(k)) then pixels[k] else screen[k])
  {
    var rect := RectOf(run);
    forall k: nat | k < PIXELS
      ensures rect.Contains(k) <==> run.Covers(TileOf(k))
      ensures rect.Contains(k) ==>
        rect.Place(k) < rect.h * rect.w
        && Crop(pixels, rect.x, rect.y, rect.w, rect.h)[rect.Place(k)] == pixels[k]
    {
      if rect.Contains(k) { CropPlace(pixels, rect, k); }
    }
  }

  ghost function CopyRuns(screen: Screen, pixels: Screen, runs: seq<Run>): Screen {
    seq(PIXELS, (k: nat) requires k < PIXELS => if Covered(runs, TileOf(k)) then pixels[k] else screen[k])
  }

  lemma CopyIsMerge(screen: Screen, fb: Fb, runs: seq<Run>)
    requires Canonical(runs, fb.dirty)
    ensures CopyRuns(screen, fb.pixels, runs) == Merge(screen, fb)
  {
    forall k: nat | k < PIXELS ensures TileOf(k) in fb.dirty <==> Covered(runs, TileOf(k)) {
      CanonicalCovers(runs, fb.dirty, TileOf(k));
    }
  }

  lemma {:induction false} ExecFrame(id: DisplayId, pixels: Screen, runs: seq<Run>, d: Device)
    requires InGridAll(runs)
    ensures ExecAll(d, FrameOps(id, pixels, runs)).screens
         == d.screens.Put(id, CopyRuns(d.screens.Get(id), pixels, runs))
  {
    var ops := FrameOps(id, pixels, runs);
    var goal := CopyRuns(d.screens.Get(id), pixels, runs);
    if runs == [] {
      assert ops[1..] == [End];
      assert ExecAll(d, ops) == ExecAll(d, [End]) == d;
      assert goal == d.screens.Get(id);
    } else {
      var rect := RectOf(runs[0]);
      var rest := FrameOps(id, pixels, runs[1..]);
      PaintCrop(d.screens.Get(id), pixels, runs[0]);
      assert ops[1..][1..] == rest;
      var d1 := Exec(Exec(d, ops[0]), ops[1]);
      assert ExecAll(d, ops) == ExecAll(d1, rest);
      ExecFrame(id, pixels, runs[1..], d1);
      forall k: nat | k < PIXELS
        ensures Covered(runs, TileOf(k)) <==> runs[0].Covers(TileOf(k)) || Covered(runs[1..], TileOf(k))
      {
        CoveredSplit(runs, TileOf(k));
      }
      assert goal == ExecAll(d1, rest).screens.Get(id);
    }
  }

  lemma CoveredSplit(runs: seq<Run>, t: Tile)
    requires runs != []
    ensures Covered(runs, t) <==> runs[0].Covers(t) || Covered(runs[1..], t)
  {
    if Covered(runs[1..], t) {
      var i :| 0 <= i < |runs| - 1 && runs[1..][i].Covers(t);
      assert runs[i + 1].Covers(t);
    }
    if Covered(runs, t) && !runs[0].Covers(t) {
      var i :| 0 <= i < |runs| && runs[i].Covers(t);
      assert runs[1..][i - 1].Covers(t);
    }
  }

  /** Received by the device, a frame copies every dirty tile of the framebuffer onto the addressed
      screen, leaves its clean tiles as they were, and never touches the other screen. */
  lemma FrameEffect(id: DisplayId, fb: Fb, payload: seq<u8>, screens: Screens)
    requires IsFrame(id, fb, payload)
    ensures Interpret(screens, payload) == Some(screens.Put(id, Merge(screens.Get(id), fb)))
  {
    var runs :| Canonical(runs, fb.dirty) && FrameFor(id, fb, payload, runs);
    FrameLexes(id, fb.pixels, runs);
    ExecFrame(id, fb.pixels, runs, Device(screens, None));
    CopyIsMerge(screens.Get(id), fb, runs);
  }

  /** Exactly when the next frame brings the screen up to date: no stale pixel in a clean tile. */
  lemma FrameSynchronises(id: DisplayId, fb: Fb, payload: seq<u8>, screens: Screens)
    requires IsFrame(id, fb, payload)
    ensures Interpret(screens, payload).Some?
    ensures Interpret(screens, payload).value.Get(id) == fb.pixels <==>
            forall k: nat :: k < PIXELS && screens.Get(id)[k] != fb.pixels[k] ==> TileOf(k) in fb.dirty
  {
    FrameEffect(id, fb, payload, screens);
    var shown := Merge(screens.Get(id), fb);
    if shown == fb.pixels {
      forall k: nat | k < PIXELS && screens.Get(id)[k] != fb.pixels[k] ensures TileOf(k) in fb.dirty {
        assert shown[k] == fb.pixels[k];
      }
    }
  }

  // ----- how long a frame can get -----

  ghost function Capacity(runs: seq<Run>): nat
    requires InGridAll(runs)
  {
    if runs == [] then 2 * CMD_LEN
    else HEADER_LEN + CMD_LEN + (runs[0].c1 - runs[0].c0 + 1) * TILE * TILE * 2 + Capacity(runs[1..])
  }

  ghost function TileCount(runs: seq<Run>): nat
    requires InGridAll(runs)
  {
    if runs == [] then 0 else runs[0].c1 - runs[0].c0 + 1 + TileCount(runs[1..])
  }

  ghost predicate SolidRun(pixels: Screen, run: Run)
    requires run.InGrid()
  {
    Solid(CropRun(pixels, run))
  }

  ghost predicate NoSolidRun(pixels: Screen, runs: seq<Run>)
    requires InGridAll(runs)
  {
    runs == [] || (!SolidRun(pixels, runs[0]) && NoSolidRun(pixels, runs[1..]))
  }

  lemma RectLength(id: DisplayId, pixels: Screen, run: Run)
    requires run.InGrid()
    ensures |RectBytes(id, pixels, RectOf(run))|
         == HEADER_LEN + CMD_LEN + if SolidRun(pixels, run) then 0 else (run.c1 - run.c0 + 1) * 512
  {
  }

  lemma {:induction false} CapacityForm(runs: seq<Run>)
    requires InGridAll(runs)
    ensures Capacity(runs) == 16 + 40 * |runs| + 512 * TileCount(runs)
  {
    if runs == [] {
    } else {
      CapacityForm(runs[1..]);
    }
  }

  ghost function BlitTiles(pixels: Screen, runs: seq<Run>): nat
    requires InGridAll(runs)
  {
    if runs == [] then 0
    else (if SolidRun(pixels, runs[0]) then 0 else runs[0].c1 - runs[0].c0 + 1) + BlitTiles(pixels, runs[1..])
  }

  lemma {:induction false} BlitTilesBound(pixels: Screen, runs: seq<Run>)
    requires InGridAll(runs)
    ensures BlitTiles(pixels, runs) <= TileCount(runs)
    ensures BlitTiles(pixels, runs) == TileCount(runs) <==> NoSolidRun(pixels, runs)
  {
    if runs == [] {
    } else {
      BlitTilesBound(pixels, runs[1..]);
    }
  }

  lemma {:induction false} FrameLength(id: DisplayId, pixels: Screen, runs: seq<Run>)
    requires InGridAll(runs)
    ensures |FrameBytes(id, pixels, runs)| == 16 + 40 * |runs| + 512 * BlitTiles(pixels, runs)
  {
    if runs == [] {
    } else {
      FrameLength(id, pixels, runs[1..]);
      RectLength(id, pixels, runs[0]);
    }
  }

  ghost predicate SortedMaximal(runs: seq<Run>, dirty: set<Tile>) {
    Sorted(runs) && (forall i :: 0 <= i < |runs| ==> Maximal(runs[i], dirty)) && InGridAll(runs)
  }

  /** Runs with the clean tile (or row end) after each fit a grid one tile wider: at most 31 per row. */
  lemma {:induction false} UnitsBound(runs: seq<Run>, dirty: set<Tile>, start: nat)
    requires SortedMaximal(runs, dirty) && start <= ROWS * 31
    requires runs != [] ==> start <= runs[0].row * 31 + runs[0].c0
    ensures |runs| + TileCount(runs) <= ROWS * 31 - start
  {
    if runs == [] {
    } else {
      var run := runs[0];
      if |runs| > 1 {
        assert run.Before(runs[1]);
        assert runs[1].c0 == run.c1 + 1 ==> Tile(run.c1 + 1, runs[1].row) in dirty;
      }
      UnitsBound(runs[1..], dirty, run.row * 31 + run.c1 + 2);
    }
  }

  /** At most 510 tiles, and fewer when a tile is in no run. */
  lemma {:induction false} TilesBound(runs: seq<Run>, dirty: set<Tile>, start: nat, hole: Option<nat>)
    requires SortedMaximal(runs, dirty) && start <= BITS
    requires runs != [] ==> start <= runs[0].row * COLS + runs[0].c0
    requires hole.Some? ==> start <= hole.value < BITS && !Covered(runs, Tile(hole.value % COLS, hole.value / COLS))
    ensures TileCount(runs) + (if hole.Some? then 1 else 0) <= BITS - start
  {
    if runs == [] {
    } else {
      var run := runs[0];
      if |runs| > 1 { assert run.Before(runs[1]); }
      var next := run.row * COLS + run.c1 + 1;
      if hole.Some? {
        CoveredSplit(runs, Tile(hole.value % COLS, hole.value / COLS));
      }
      TilesBound(runs[1..], dirty, next, if hole.Some? && next <= hole.value then hole else None);
    }
  }

  function FullRows(n: nat): seq<Run> {
    seq(n, (r: nat) => Run(r, 0, COLS - 1))
  }

  lemma FullRowsCanonical()
    ensures Canonical(FullRows(ROWS), AllTiles())
  {
    var runs := FullRows(ROWS);
    forall t | t in AllTiles() ensures Covered(runs, t) {
      assert runs[t.row].Covers(t);
    }
  }

  lemma {:induction false} FullRowsCount(runs: seq<Run>)
    requires InGridAll(runs) && forall i :: 0 <= i < |runs| ==> runs[i].c0 == 0 && runs[i].c1 == COLS - 1
    ensures TileCount(runs) == COLS * |runs|
  {
    if runs == [] {
    } else {
      FullRowsCount(runs[1..]);
    }
  }

  /** 510 tiles are covered exactly when every tile is dirty, and then by one run per row. */
  lemma AllTilesCount(runs: seq<Run>, dirty: set<Tile>)
    requires Canonical(runs, dirty) && InGridAll(runs)
    ensures TileCount(runs) == BITS <==> dirty == AllTiles()
    ensures dirty == AllTiles() ==> |runs| == ROWS
  {
    if dirty == AllTiles() {
      FullRowsCanonical();
      CanonicalUnique(runs, FullRows(ROWS), dirty);
      FullRowsCount(runs);
    } else {
      SomeTileClean(runs, dirty);
    }
  }

  lemma LargestFrame(len: nat, cap: nat, runs: nat, tiles: nat, blit: nat, full: bool, noSolid: bool)
    requires len == 16 + 40 * runs + 512 * blit && cap == 16 + 40 * runs + 512 * tiles
    requires runs + tiles <= 527 && tiles <= 510 && blit <= tiles
    requires (tiles == 510 <==> full) && (full ==> runs == 17) && (blit == tiles <==> noSolid)
    ensures len <= cap <= 261816 && len % 8 == 0
    ensures len == 261816 <==> full && noSolid
  {
  }

  /** At most 31 runs and dirty tiles together in each of the 17 rows. */
  lemma RunsAndTiles(runs: seq<Run>, dirty: set<Tile>)
    requires Canonical(runs, dirty) && InGridAll(runs)
    ensures |runs| + TileCount(runs) <= ROWS * 31 && TileCount(runs) <= BITS
    ensures TileCount(runs) == BITS <==> dirty == AllTiles()
    ensures dirty == AllTiles() ==> |runs| == ROWS
  {
    UnitsBound(runs, dirty, 0);
    TilesBound(runs, dirty, 0, None);
    AllTilesCount(runs, dirty);
  }

  /** Every frame fits its capacity estimate and 261,816 bytes, in whole commands; the longest frame
      is exactly the one with every tile dirty and no solid run. */
  lemma FrameSize(id: DisplayId, pixels: Screen, runs: seq<Run>, dirty: set<Tile>)
    requires Canonical(runs, dirty) && InGridAll(runs)
    ensures |FrameBytes(id, pixels, runs)| <= Capacity(runs) <= FRAME_MAX < SLOT_SIZE
    ensures |FrameBytes(id, pixels, runs)| % 8 == 0
    ensures |FrameBytes(id, pixels, runs)| == FRAME_MAX
       <==> dirty == AllTiles() && NoSolidRun(pixels, runs)
  {
    RunsAndTiles(runs, dirty);
    FrameLength(id, pixels, runs);
    BlitTilesBound(pixels, runs);
    CapacityForm(runs);
    LargestFrame(|FrameBytes(id, pixels, runs)|, Capacity(runs), |runs|, TileCount(runs),
                 BlitTiles(pixels, runs), dirty == AllTiles(), NoSolidRun(pixels, runs));
  }

  lemma SomeTileClean(runs: seq<Run>, dirty: set<Tile>)
    requires Canonical(runs, dirty) && InGridAll(runs) && dirty != AllTiles()
    ensures TileCount(runs) < BITS
  {
    forall t | t in dirty ensures t in AllTiles() {
      var i :| 0 <= i < |runs| && runs[i].Covers(t);
    }
    var t :| t in AllTiles() && t !in dirty;
    var hole := t.row * COLS + t.col;
    assert Tile(hole % COLS, hole / COLS) == t;
    CanonicalCovers(runs, dirty, t);
    TilesBound(runs, dirty, 0, Some(hole));
  }
}
