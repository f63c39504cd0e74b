/** The dirty-tile tracker: a 30 x 17 grid of 16 x 16 tiles packed into eight 64-bit words,
    and the decomposition of the dirty set into horizontal runs. */
module Tiles {
  import opened Words

  const TILE := 16
  const COLS := 30
  const ROWS := 17
  const BITS := 510

  datatype Tile = Tile(col: nat, row: nat)

  /** A horizontal run of tiles, both ends included. */
  datatype Run = Run(row: nat, c0: nat, c1: nat) {
    ghost predicate Covers(t: Tile) {
      t.row == row && c0 <= t.col <= c1
    }
    ghost predicate InGrid() {
      row < ROWS && c0 <= c1 < COLS
    }
    ghost predicate Before(next: Run) {
      row < next.row || (row == next.row && c1 < next.c0)
    }
  }

  // ----- what the words mean -----

  ghost predicate WellFormed(bits: seq<u64>) {
    |bits| == 8 && !Bit(bits[7], 62) && !Bit(bits[7], 63)
  }

  predicate HasBit(bits: seq<u64>, idx: nat)
    requires |bits| == 8 && idx < 512
  {
    Bit(bits[idx / 64], idx % 64)
  }

  ghost function TilesOf(bits: seq<u64>): set<Tile>
    requires |bits| == 8
  {
    set c: nat, r: nat | c < COLS && r < ROWS && HasBit(bits, r * COLS + c) :: Tile(c, r)
  }

  ghost function AllTiles(): set<Tile> {
    set c: nat, r: nat | c < COLS && r < ROWS :: Tile(c, r)
  }

  /** The tiles of the grid whose 16 x 16 square meets the pixel rectangle. */
  ghost function RectTiles(x: nat, y: nat, w: nat, h: nat): set<Tile> {
    set c: nat, r: nat
      | c < COLS && r < ROWS
        && w > 0 && c * TILE < x + w && x < (c + 1) * TILE
        && h > 0 && r * TILE < y + h && y < (r + 1) * TILE
      :: Tile(c, r)
  }

  /** Every pixel of the rectangle that is on the grid lies in one of the rectangle's tiles,
      and every one of those tiles holds such a pixel. */
  lemma RectTilesMeaning(x: nat, y: nat, w: nat, h: nat, t: Tile)
    ensures t in RectTiles(x, y, w, h) <==>
            t.col < COLS && t.row < ROWS
            && exists px: nat, py: nat ::
                 px / TILE == t.col && py / TILE == t.row && x <= px < x + w && y <= py < y + h
  {
    if t in RectTiles(x, y, w, h) {
      var px := if x > t.col * TILE then x else t.col * TILE;
      var py := if y > t.row * TILE then y else t.row * TILE;
      assert px / TILE == t.col && py / TILE == t.row;
    }
  }

  lemma MarkWord(bits: seq<u64>, idx: nat)
    requires |bits| == 8 && idx < 512
    ensures Or(bits[idx / 64], Pow2(idx % 64)) < 0x1_0000_0000_0000_0000
    ensures var marked := bits[idx / 64 := Or(bits[idx / 64], Pow2(idx % 64))];
            forall j: nat :: j < 512 ==> (HasBit(marked, j) <==> HasBit(bits, j) || j == idx)
  {
    Pow2Of64();
    Pow2Monotone(idx % 64, 64);
    OrFits(bits[idx / 64], Pow2(idx % 64), 64);
    var marked := bits[idx / 64 := Or(bits[idx / 64], Pow2(idx % 64))];
    forall j: nat | j < 512 ensures HasBit(marked, j) <==> HasBit(bits, j) || j == idx {
      OrBit(bits[idx / 64], Pow2(idx % 64), j % 64);
      Pow2Bit(idx % 64, j % 64);
    }
  }

  lemma MarkWordTiles(bits: seq<u64>, col: nat, row: nat)
    requires WellFormed(bits) && col < COLS && row < ROWS
    ensures var idx := row * COLS + col;
            Or(bits[idx / 64], Pow2(idx % 64)) < 0x1_0000_0000_0000_0000
    ensures var idx := row * COLS + col;
            var marked := bits[idx / 64 := Or(bits[idx / 64], Pow2(idx % 64))];
            WellFormed(marked) && TilesOf(marked) == TilesOf(bits) + {Tile(col, row)}
  {
    var idx := row * COLS + col;
    MarkWord(bits, idx);
    var marked := bits[idx / 64 := Or(bits[idx / 64], Pow2(idx % 64))];
    assert !HasBit(bits, 510) && !HasBit(bits, 511);
    assert !HasBit(marked, 510) && !HasBit(marked, 511);
    forall t ensures t in TilesOf(marked) <==> t in TilesOf(bits) || t == Tile(col, row) {
      if t.col < COLS && t.row < ROWS {
        assert HasBit(marked, t.row * COLS + t.col)
          <==> HasBit(bits, t.row * COLS + t.col) || t.row * COLS + t.col == idx;
      }
    }
  }

  /** Under the well-formedness invariant the words are all zero exactly when no tile is dirty. */
  lemma EmptyIffZero(bits: seq<u64>)
    requires WellFormed(bits)
    ensures TilesOf(bits) == {} <==> forall i :: 0 <= i < 8 ==> bits[i] == 0
  {
    if TilesOf(bits) == {} {
      forall i | 0 <= i < 8 ensures bits[i] == 0 {
        forall k: nat | k < 64 ensures Bit(bits[i], k) <==> Bit(0, k) {
          ZeroHasNoBits(k);
          var idx := i * 64 + k;
          assert idx / 64 == i && idx % 64 == k;
          if idx < BITS {
            var t := Tile(idx % COLS, idx / COLS);
            assert t !in TilesOf(bits);
            assert t.row * COLS + t.col == idx;
          }
        }
        Pow2Of64();
        BitsDetermine(bits[i], 0, 64);
      }
    } else {
      var t :| t in TilesOf(bits);
      ZeroHasNoBits((t.row * COLS + t.col) % 64);
    }
  }

  // ----- canonical runs -----

  /** Every run lies in the grid, is dirty throughout and cannot be extended in its row. */
  ghost predicate Maximal(run: Run, dirty: set<Tile>) {
    && run.InGrid()
    && (forall c :: run.c0 <= c <= run.c1 ==> Tile(c, run.row) in dirty)
    && (run.c0 > 0 ==> Tile(run.c0 - 1, run.row) !in dirty)
    && Tile(run.c1 + 1, run.row) !in dirty
  }

  ghost predicate Sorted(runs: seq<Run>) {
    forall i, j :: 0 <= i < j < |runs| ==> runs[i].Before(runs[j])
  }

  ghost predicate Covered(runs: seq<Run>, t: Tile) {
    exists i :: 0 <= i < |runs| && runs[i].Covers(t)
  }

  /** Sorted, pairwise disjoint, each run maximal in its row, together exactly the dirty set. */
  ghost predicate Canonical(runs: seq<Run>, dirty: set<Tile>) {
    && Sorted(runs)
    && (forall i :: 0 <= i < |runs| ==> Maximal(runs[i], dirty))
    && (forall t :: t in dirty ==> Covered(runs, t))
  }

  lemma CanonicalCovers(runs: seq<Run>, dirty: set<Tile>, t: Tile)
    requires Canonical(runs, dirty)
    ensures t in dirty <==> Covered(runs, t)
  {
    if Covered(runs, t) {
      var i :| 0 <= i < |runs| && runs[i].Covers(t);
      assert Maximal(runs[i], dirty);
      assert Tile(t.col, runs[i].row) == t;
    }
  }

  /** Each run of one canonical list occurs in every other. */
  lemma RunOccurs(a: seq<Run>, b: seq<Run>, dirty: set<Tile>, k: nat) returns (m: nat)
    requires Canonical(a, dirty) && Canonical(b, dirty) && k < |a|
    ensures m < |b| && b[m] == a[k]
  {
    var run := a[k];
    assert Maximal(run, dirty);
    var t := Tile(run.c0, run.row);
    assert t in dirty && Covered(b, t);
    m :| 0 <= m < |b| && b[m].Covers(t);
    var other := b[m];
    assert Maximal(other, dirty);
    assert other.c0 == run.c0;
    assert other.c1 == run.c1;
  }

  lemma {:induction false} SamePrefix(a: seq<Run>, b: seq<Run>, dirty: set<Tile>, k: nat)
    requires Canonical(a, dirty) && Canonical(b, dirty) && k <= |a|
    ensures k <= |b| && a[..k] == b[..k]
  {
    if k == 0 {
    } else {
      SamePrefix(a, b, dirty, k - 1);
      assert forall i :: 0 <= i < k - 1 ==> a[i] == a[..k - 1][i] == b[i];
      var m := RunOccurs(a, b, dirty, k - 1);
      assert m >= k - 1;
      var n := RunOccurs(b, a, dirty, k - 1);
      assert n >= k - 1;
      assert m == k - 1;
    }
  }

  /** A dirty set has only one canonical decomposition. */
  lemma CanonicalUnique(a: seq<Run>, b: seq<Run>, dirty: set<Tile>)
    requires Canonical(a, dirty) && Canonical(b, dirty)
    ensures a == b
  {
    SamePrefix(a, b, dirty, |a|);
    SamePrefix(b, a, dirty, |b|);
    assert a[..|a|] == a && b[..|b|] == b;
  }

  /** The scan of rows above `r` and of columns left of `c` in row `r` is decomposed. */
  ghost predicate CanonicalUpTo(runs: seq<Run>, dirty: set<Tile>, r: nat, c: nat) {
    && Sorted(runs)
    && (forall i :: 0 <= i < |runs| ==>
          Maximal(runs[i], dirty) && (runs[i].row < r || (runs[i].row == r && runs[i].c1 < c)))
    && (forall t :: t in dirty && (t.row < r || (t.row == r && t.col < c)) ==> Covered(runs, t))
  }

  lemma AppendRun(runs: seq<Run>, dirty: set<Tile>, r: nat, start: nat, c: nat)
    requires CanonicalUpTo(runs, dirty, r, start) && start < c
    requires Maximal(Run(r, start, c - 1), dirty)
    ensures CanonicalUpTo(runs + [Run(r, start, c - 1)], dirty, r, c)
  {
    var more := runs + [Run(r, start, c - 1)];
    forall t | t in dirty && (t.row < r || (t.row == r && t.col < c)) ensures Covered(more, t) {
      if Covered(runs, t) {
        var i :| 0 <= i < |runs| && runs[i].Covers(t);
        assert more[i].Covers(t);
      } else {
        assert more[|runs|].Covers(t);
      }
    }
  }

  class DirtyTracker {
    const bits: array<u64>

    ghost predicate Valid()
      reads bits
    {
      WellFormed(bits[..])
    }

    ghost function Dirty(): set<Tile>
      requires Valid()
      reads bits
    {
      TilesOf(bits[..])
    }

    constructor ()
      ensures Valid() && fresh(bits) && Dirty() == {}
    {
      bits := new u64[8](_ => 0);
      new;
      ZeroHasNoBits(62);
      ZeroHasNoBits(63);
      EmptyIffZero(bits[..]);
    }

    method Clear()
      requires Valid()
      modifies bits
      ensures Valid() && Dirty() == {}
    {
      for i := 0 to 8
        invariant forall k :: 0 <= k < i ==> bits[k] == 0
      {
        bits[i] := 0;
      }
      ZeroHasNoBits(62);
      ZeroHasNoBits(63);
      EmptyIffZero(bits[..]);
    }

    method MarkFull()
      requires Valid()
      modifies bits
      ensures Valid() && Dirty() == AllTiles()
    {
      Pow2Of64();
      for i := 0 to 8
        invariant forall j: nat :: j < 64 * i ==> (HasBit(bits[..], j) <==> j < BITS)
      {
        var base := i * 64;
        var end := if base + 64 <= BITS then base + 64 else BITS;
        var n := end - base;
        label before:
        bits[i] := if n == 64 then 0xFFFF_FFFF_FFFF_FFFF else Pow2(n) - 1;
        assert bits[i] == Pow2(n) - 1;
        forall j: nat | j < 64 * (i + 1) ensures HasBit(bits[..], j) <==> j < BITS {
          MaskBit(n, j % 64);
          if j < 64 * i { assert HasBit(old@before(bits[..]), j) <==> j < BITS; }
        }
      }
      assert !HasBit(bits[..], 510) && !HasBit(bits[..], 511);
    }

    method IsEmpty() returns (empty: bool)
      requires Valid()
      ensures empty <==> Dirty() == {}
    {
      EmptyIffZero(bits[..]);
      for i := 0 to 8
        invariant forall k :: 0 <= k < i ==> bits[k] == 0
      {
        if bits[i] != 0 { return false; }
      }
      return true;
    }

    method MarkTile(col: nat, row: nat)
      requires Valid()
      modifies bits
      ensures Valid()
      ensures Dirty() == old(Dirty()) + (if col < COLS && row < ROWS then {Tile(col, row)} else {})
    {
      if col >= COLS || row >= ROWS { return; }
      var idx := row * COLS + col;
      MarkWordTiles(bits[..], col, row);
      ghost var was := bits[..];
      bits[idx / 64] := Or(bits[idx / 64], Pow2(idx % 64));
      assert bits[..] == was[idx / 64 := Or(was[idx / 64], Pow2(idx % 64))];
    }

    method IsTileDirty(col: nat, row: nat) returns (dirty: bool)
      requires Valid()
      ensures dirty <==> Tile(col, row) in Dirty()
    {
      if col >= COLS || row >= ROWS { return false; }
      var idx := row * COLS + col;
      return Bit(bits[idx / 64], idx % 64);
    }

    method MarkPixel(x: u16, y: u16)
      requires Valid()
      modifies bits
      ensures Valid() && Dirty() == old(Dirty()) + RectTiles(x, y, 1, 1)
    {
      MarkTile(x / TILE, y / TILE);
    }

    method MarkRect(x: u16, y: u16, w: u16, h: u16)
      requires Valid()
      modifies bits
      ensures Valid() && Dirty() == old(Dirty()) + RectTiles(x, y, w, h)
    {
      if w == 0 || h == 0 { return; }
      ghost var was := Dirty();
      ghost var goal := RectTiles(x, y, w, h);
      var c0 := x / TILE;
      var r0 := y / TILE;
      var c1 := (x + w - 1) / TILE;
      var r1 := (y + h - 1) / TILE;
      var cEnd := (if c1 < COLS - 1 then c1 else COLS - 1) + 1;
      var rEnd := (if r1 < ROWS - 1 then r1 else ROWS - 1) + 1;
      assert forall t :: t in goal <==> c0 <= t.col < cEnd && r0 <= t.row < rEnd;
      var r := r0;
      while r < rEnd
        invariant r0 <= r && Valid()
        invariant forall t :: t in Dirty() <==> t in was || (t in goal && t.row < r)
      {
        var c := c0;
        while c < cEnd
          invariant c0 <= c && Valid()
          invariant forall t :: t in Dirty() <==>
                      t in was || (t in goal && (t.row < r || (t.row == r && t.col < c)))
        {
          MarkTile(c, r);
          c := c + 1;
        }
        r := r + 1;
      }
    }

    /** Greedy horizontal runs of dirty tiles, row by row. */
    method Runs() returns (runs: seq<Run>)
      requires Valid()
      ensures Canonical(runs, Dirty())
    {
      runs := [];
      ghost var goal := Dirty();
      for r := 0 to ROWS
        invariant CanonicalUpTo(runs, goal, r, 0)
      {
        var c := 0;
        while c < COLS
          invariant 0 <= c <= COLS
          invariant CanonicalUpTo(runs, goal, r, c)
          invariant c > 0 && Tile(c - 1, r) in goal ==> Tile(c, r) !in goal
        {
          var dirty := IsTileDirty(c, r);
          if dirty {
            var start := c;
            while c < COLS && dirty
              invariant start <= c <= COLS
              invariant c == start ==> dirty
              invariant dirty <==> Tile(c, r) in goal
              invariant forall k :: start <= k < c ==> Tile(k, r) in goal
            {
              c := c + 1;
              dirty := IsTileDirty(c, r);
            }
            AppendRun(runs, goal, r, start, c);
            runs := runs + [Run(r, start, c - 1)];
          } else {
            c := c + 1;
          }
        }
      }
    }
  }

  /** Marking every tile of the grid one at a time gives the same set as the closed-form masks. */
  method MarkEachTile(d: DirtyTracker)
    requires d.Valid()
    modifies d.bits
    ensures d.Valid() && d.Dirty() == AllTiles()
  {
    for r := 0 to ROWS
      invariant d.Valid() && forall t :: t in AllTiles() && t.row < r ==> t in d.Dirty()
    {
      for c := 0 to COLS
        invariant d.Valid()
        invariant forall t :: t in AllTiles() && (t.row < r || (t.row == r && t.col < c)) ==> t in d.Dirty()
      {
        d.MarkTile(c, r);
      }
    }
  }
}
