/** The CPU-side framebuffer of one display: pixels plus the dirty tracker that every
    drawing operation keeps up to date. */
module Framebuffers {
  import opened Words
  import opened Tiles
  import opened Wire

  /** The value of a framebuffer. */
  datatype Fb = Fb(pixels: Screen, dirty: set<Tile>)

  /** The tile pixel `k` of a row-major screen lies in. */
  function TileOf(k: nat): Tile {
    Tile(k % WIDTH / TILE, k / WIDTH / TILE)
  }

  /** Pixel `k` lies in the (unclipped) rectangle. */
  predicate InBox(k: nat, x: nat, y: nat, w: nat, h: nat) {
    x <= k % WIDTH < x + w && y <= k / WIDTH < y + h
  }

  function Plain(v: u16): Screen {
    seq(PIXELS, _ => v)
  }

  /** One colour on every screen pixel of the rectangle, and its tiles marked; nothing else. */
  ghost function Filled(fb: Fb, x: nat, y: nat, w: nat, h: nat, v: u16): Fb {
    Fb(seq(PIXELS, (k: nat) requires k < PIXELS => if InBox(k, x, y, w, h) then v else fb.pixels[k]),
       fb.dirty + RectTiles(x, y, w, h))
  }

  ghost function Touched(fb: Fb, x: nat, y: nat, w: nat, h: nat): Fb {
    fb.(dirty := fb.dirty + RectTiles(x, y, w, h))
  }

  /** A direct write that marks nothing. */
  ghost function Poked(fb: Fb, k: nat, v: u16): Fb
    requires k < PIXELS
  {
    fb.(pixels := fb.pixels[k := v])
  }

  /** A screen pixel's tile is on the grid. */
  lemma TileOnGrid(k: nat)
    requires k < PIXELS
    ensures TileOf(k) in AllTiles()
  {
  }

  /** A pixel a fill changes has its tile marked by that fill. */
  lemma FillMarksWhatItChanges(fb: Fb, x: nat, y: nat, w: nat, h: nat, v: u16, k: nat)
    requires k < PIXELS && InBox(k, x, y, w, h)
    ensures TileOf(k) in Filled(fb, x, y, w, h, v).dirty
  {
    assert TileOf(k) in RectTiles(x, y, w, h);
  }

  /** In screen coordinates, a fill changes exactly the pixels of the rectangle. */
  lemma FilledAt(fb: Fb, x: nat, y: nat, w: nat, h: nat, v: u16, px: nat, py: nat)
    requires px < 480 && py < 272
    ensures Filled(fb, x, y, w, h, v).pixels[py * 480 + px]
         == if x <= px && px < x + w && y <= py && py < y + h then v else fb.pixels[py * 480 + px]
  {
    assert (py * 480 + px) / WIDTH == py && (py * 480 + px) % WIDTH == px;
  }

  class Framebuffer {
    const pixels: array<u16>
    const dirty: DirtyTracker

    ghost const Repr: set<object>

    ghost predicate Valid()
      reads this, Repr
    {
      && Repr == {this, pixels, dirty, dirty.bits}
      && pixels.Length == PIXELS
      && dirty.Valid()
    }

    ghost function View(): Fb
      requires Valid()
      reads this, Repr
    {
      Fb(pixels[..], dirty.Dirty())
    }

    constructor ()
      ensures Valid() && fresh(Repr)
      ensures View() == Fb(Plain(0), {})
    {
      pixels := new u16[PIXELS](_ => 0);
      var d := new DirtyTracker();
      dirty := d;
      Repr := {this, pixels, d, d.bits};
    }

    method IsDirty() returns (d: bool)
      requires Valid()
      ensures d <==> View().dirty != {}
    {
      var empty := dirty.IsEmpty();
      return !empty;
    }

    method Clear(color: Rgb)
      requires Valid()
      modifies Repr
      ensures Valid() && View() == Fb(Plain(color.ToRgb565()), AllTiles())
    {
      var v := color.ToRgb565();
      for i := 0 to pixels.Length
        invariant Valid() && forall k :: 0 <= k < i ==> pixels[k] == v
      {
        pixels[i] := v;
      }
      dirty.MarkFull();
    }

    method SetPixel(x: u16, y: u16, c: Rgb)
      requires Valid()
      modifies Repr
      ensures Valid() && View() == Filled(old(View()), x, y, 1, 1, c.ToRgb565())
    {
      if x >= WIDTH || y >= HEIGHT {
        assert View().pixels == Filled(View(), x, y, 1, 1, c.ToRgb565()).pixels;
        return;
      }
      pixels[y * WIDTH + x] := c.ToRgb565();
      dirty.MarkPixel(x, y);
    }

    method Touch(x: u16, y: u16, w: u16, h: u16)
      requires Valid()
      modifies Repr
      ensures Valid() && View() == Touched(old(View()), x, y, w, h)
    {
      dirty.MarkRect(x, y, w, h);
    }

    /** A write through the mutable pixel slice. */
    method WritePixel(k: nat, v: u16)
      requires Valid() && k < PIXELS
      modifies Repr
      ensures Valid() && View() == Poked(old(View()), k, v)
    {
      pixels[k] := v;
    }

    method FillSpan(from: nat, to: nat, v: u16)
      requires Valid() && from <= to <= PIXELS
      modifies pixels
      ensures forall k :: 0 <= k < PIXELS ==> pixels[k] == if from <= k < to then v else old(pixels[k])
    {
      for k := from to to
        invariant forall j :: 0 <= j < PIXELS ==> pixels[j] == if from <= j < k then v else old(pixels[j])
      {
        pixels[k] := v;
      }
    }

    method FillRect(x: u16, y: u16, w: u16, h: u16, c: Rgb)
      requires Valid()
      modifies Repr
      ensures Valid() && View() == Filled(old(View()), x, y, w, h, c.ToRgb565())
    {
      ghost var was := View();
      var x0 := if x < WIDTH then x else WIDTH;
      var y0 := if y < HEIGHT then y else HEIGHT;
      var x1 := if x0 + w < WIDTH then x0 + w else WIDTH;
      var y1 := if y0 + h < HEIGHT then y0 + h else HEIGHT;
      assert forall k: nat :: k < PIXELS ==>
        (InBox(k, x, y, w, h) <==> x0 <= k % WIDTH < x1 && y0 <= k / WIDTH < y1);
      if x0 == x1 || y0 == y1 {
        assert View().pixels == Filled(was, x, y, w, h, c.ToRgb565()).pixels;
        return;
      }
      var v := c.ToRgb565();
      for yy := y0 to y1
        invariant Valid() && View().dirty == was.dirty
        invariant forall k: nat :: k < PIXELS ==>
          pixels[k] == if x0 <= k % WIDTH < x1 && y0 <= k / WIDTH < yy then v else was.pixels[k]
      {
        FillSpan(yy * WIDTH + x0, yy * WIDTH + x1, v);
      }
      dirty.MarkRect(x0, y0, x1 - x0, y1 - y0);
      assert RectTiles(x0, y0, x1 - x0, y1 - y0) == RectTiles(x, y, w, h);
      assert View().pixels == Filled(was, x, y, w, h, v).pixels;
    }
  }
}
