/** The compositing rule of the sprite-draw instruction.  The frame buffer is
    a row-major sequence of cells, 64 cells to a row; a sprite is a
    sequence of row bytes whose bit 7 is the leftmost pixel.  Drawing flips
    every cell under a set pixel; pixels right of the last column are dropped. */
module Sprite {
  import opened Word

  // The screen is 64 cells wide and 32 high; the literals are written out
  // in the arithmetic below so that the solver sees linear terms.

  /** The anchor coordinate taken from a register value: a value on the
      screen is kept, one past the edge becomes (v + 1) % size.  The
      increment is done in u8 and so is undefined for 0xFF. */
  function Anchor(v: u8, size: nat): (a: nat)
    requires size == 64 || size == 32
    requires v != 0xFF
    ensures a < size
    ensures v < size ==> a == v
  {
    if v > size - 1 then (v + 1) % size else v
  }

  /** Pixel j of a sprite row byte is set: `(row & (1 << (7 - j))) >> (7 - j)`
      is 1, so bit 7 is the leftmost pixel. */
  predicate RowPixel(row: u8, j: nat)
    requires j < 8
  {
    BitAt(row, 7 - j) == 1
  }

  /** Pixel j of sprite row r is set. */
  predicate Pixel(sprite: seq<u8>, r: nat, j: nat)
    requires r < |sprite| && j < 8
  {
    RowPixel(sprite[r], j)
  }

  /** Cell k lies under a set pixel of the sprite anchored at (x0, y0). */
  predicate Covered(sprite: seq<u8>, x0: nat, y0: nat, k: nat) {
    var row, col := k / 64, k % 64;
    y0 <= row < y0 + |sprite| && x0 <= col < x0 + 8 && Pixel(sprite, row - y0, col - x0)
  }

  /** Every set pixel that is not clipped at the right edge falls inside a
      buffer of fbSize cells. */
  predicate Fits(fbSize: nat, sprite: seq<u8>, x0: nat, y0: nat) {
    forall r, j :: 0 <= r < |sprite| && 0 <= j < 8 && x0 + j < 64 && Pixel(sprite, r, j) ==>
      (y0 + r) * 64 + x0 + j < fbSize
  }

  /** The frame buffer with every covered cell flipped. */
  function Composite(fb: seq<bool>, sprite: seq<u8>, x0: nat, y0: nat): (r: seq<bool>)
    ensures |r| == |fb|
  {
    seq(|fb|, k requires 0 <= k < |fb| => fb[k] != Covered(sprite, x0, y0, k))
  }

  /** Some lit cell lies under a set pixel, so drawing turns it off. */
  predicate Collides(fb: seq<bool>, sprite: seq<u8>, x0: nat, y0: nat) {
    exists k :: 0 <= k < |fb| && Covered(sprite, x0, y0, k) && fb[k]
  }

  /** The position of a covered cell in the order the draw loop visits
      pixels: row by row, and left to right within a row. */
  function Rank(x0: nat, y0: nat, k: nat): int {
    (k / 64 - y0) * 8 + (k % 64 - x0)
  }

  /** The buffer once the first p pixels (in visiting order) are drawn. */
  ghost function CompositeUpTo(fb: seq<bool>, sprite: seq<u8>, x0: nat, y0: nat, p: int): (r: seq<bool>)
    ensures |r| == |fb|
  {
    seq(|fb|, k requires 0 <= k < |fb| => fb[k] != (Covered(sprite, x0, y0, k) && Rank(x0, y0, k) < p))
  }

  /** A collision among the first p pixels. */
  ghost predicate CollidesUpTo(fb: seq<bool>, sprite: seq<u8>, x0: nat, y0: nat, p: int) {
    exists k :: 0 <= k < |fb| && Covered(sprite, x0, y0, k) && Rank(x0, y0, k) < p && fb[k]
  }

  /** Row and column of a cell index. */
  lemma CellOf(row: nat, col: nat)
    requires col < 64
    ensures (row * 64 + col) / 64 == row
    ensures (row * 64 + col) % 64 == col
  {
  }

  /** The cell under pixel (i, j) is covered exactly when the pixel is set,
      and it is the (i * 8 + j)-th pixel visited. */
  lemma CoveredAt(sprite: seq<u8>, x0: nat, y0: nat, i: nat, j: nat)
    requires i < |sprite| && j < 8 && x0 + j < 64
    ensures Covered(sprite, x0, y0, (y0 + i) * 64 + x0 + j) <==> Pixel(sprite, i, j)
    ensures Rank(x0, y0, (y0 + i) * 64 + x0 + j) == i * 8 + j
  {
    CellOf(y0 + i, x0 + j);
  }

  /** A covered cell lies under the pixel its rank names. */
  lemma RankUnique(sprite: seq<u8>, x0: nat, y0: nat, k: nat, i: nat, j: nat)
    requires Covered(sprite, x0, y0, k) && j < 8 && Rank(x0, y0, k) == i * 8 + j
    ensures i < |sprite| && x0 + j < 64
    ensures k == (y0 + i) * 64 + x0 + j
  {
    var row, col := k / 64, k % 64;
    assert (row - y0 - i) * 8 == j - (col - x0);
    assert row - y0 == i;
  }

  /** A covered cell is visited among the first 8 * |sprite| pixels. */
  lemma RankBound(sprite: seq<u8>, x0: nat, y0: nat, k: nat)
    requires Covered(sprite, x0, y0, k)
    ensures 0 <= Rank(x0, y0, k) < 8 * |sprite|
  {
  }

  /** Before any pixel is drawn the buffer is untouched. */
  lemma CompositeStart(fb: seq<bool>, sprite: seq<u8>, x0: nat, y0: nat)
    ensures CompositeUpTo(fb, sprite, x0, y0, 0) == fb
    ensures !CollidesUpTo(fb, sprite, x0, y0, 0)
  {
    forall k | 0 <= k < |fb| && Covered(sprite, x0, y0, k)
      ensures Rank(x0, y0, k) >= 0
    {
      RankBound(sprite, x0, y0, k);
    }
  }

  /** Once every pixel is visited the whole composite is drawn. */
  lemma CompositeFinish(fb: seq<bool>, sprite: seq<u8>, x0: nat, y0: nat)
    ensures CompositeUpTo(fb, sprite, x0, y0, 8 * |sprite|) == Composite(fb, sprite, x0, y0)
    ensures CollidesUpTo(fb, sprite, x0, y0, 8 * |sprite|) <==> Collides(fb, sprite, x0, y0)
  {
    forall k | 0 <= k < |fb| && Covered(sprite, x0, y0, k)
      ensures Rank(x0, y0, k) < 8 * |sprite|
    {
      RankBound(sprite, x0, y0, k);
    }
  }

  /** Drawing a set pixel (i, j) flips its cell, which until then holds its
      value from before the draw, and it is a collision when that cell was lit. */
  lemma CompositeFlip(fb: seq<bool>, sprite: seq<u8>, x0: nat, y0: nat, i: nat, j: nat, k0: nat, p: nat)
    requires i < |sprite| && j < 8 && x0 + j < 64 && Pixel(sprite, i, j)
    requires k0 == (y0 + i) * 64 + x0 + j && k0 < |fb| && p == i * 8 + j
    ensures CompositeUpTo(fb, sprite, x0, y0, p)[k0] == fb[k0]
    ensures CompositeUpTo(fb, sprite, x0, y0, p + 1) == CompositeUpTo(fb, sprite, x0, y0, p)[k0 := !fb[k0]]
    ensures CollidesUpTo(fb, sprite, x0, y0, p + 1) <==> CollidesUpTo(fb, sprite, x0, y0, p) || fb[k0]
  {
    CoveredAt(sprite, x0, y0, i, j);
    forall k | 0 <= k < |fb| && Covered(sprite, x0, y0, k) && Rank(x0, y0, k) == p
      ensures k == k0
    {
      RankUnique(sprite, x0, y0, k, i, j);
    }
    if fb[k0] {
      assert CollidesUpTo(fb, sprite, x0, y0, p + 1);
    }
  }

  /** Visiting a clear pixel (i, j) changes nothing. */
  lemma CompositeSkip(fb: seq<bool>, sprite: seq<u8>, x0: nat, y0: nat, i: nat, j: nat, p: nat)
    requires i < |sprite| && j < 8 && x0 + j < 64 && !Pixel(sprite, i, j) && p == i * 8 + j
    ensures CompositeUpTo(fb, sprite, x0, y0, p + 1) == CompositeUpTo(fb, sprite, x0, y0, p)
    ensures CollidesUpTo(fb, sprite, x0, y0, p + 1) <==> CollidesUpTo(fb, sprite, x0, y0, p)
  {
    forall k | 0 <= k < |fb| && Covered(sprite, x0, y0, k) && Rank(x0, y0, k) == p
      ensures false
    {
      RankUnique(sprite, x0, y0, k, i, j);
    }
  }

  /** The pixels of row i from column j on are all clipped when j is past
      the right edge, so skipping them changes nothing. */
  lemma CompositeRowEnd(fb: seq<bool>, sprite: seq<u8>, x0: nat, y0: nat, i: nat, j: nat, p: nat)
    requires i < |sprite| && j <= 8 && (j == 8 || x0 + j >= 64) && p == i * 8 + j
    ensures CompositeUpTo(fb, sprite, x0, y0, p) == CompositeUpTo(fb, sprite, x0, y0, (i + 1) * 8)
    ensures CollidesUpTo(fb, sprite, x0, y0, p) <==> CollidesUpTo(fb, sprite, x0, y0, (i + 1) * 8)
  {
    forall k | 0 <= k < |fb| && Covered(sprite, x0, y0, k) && Rank(x0, y0, k) < (i + 1) * 8
      ensures Rank(x0, y0, k) < p
    {
      var r := Rank(x0, y0, k);
      if r >= p {
        RankUnique(sprite, x0, y0, k, i, r - i * 8);
      }
    }
  }

  /** Every set pixel of one row byte left of the right edge lands inside a
      buffer of fbSize cells, the row's cells starting at index base. */
  predicate RowFits(fbSize: nat, row: u8, x0: nat, base: nat) {
    forall j :: 0 <= j < 8 && x0 + j < 64 && RowPixel(row, j) ==> base + x0 + j < fbSize
  }

  /** A sprite that fits has rows that fit. */
  lemma FitsRow(fbSize: nat, sprite: seq<u8>, x0: nat, y0: nat, i: nat)
    requires i < |sprite| && Fits(fbSize, sprite, x0, y0)
    ensures RowFits(fbSize, sprite[i], x0, (y0 + i) * 64)
  {
    forall j | 0 <= j < 8 && x0 + j < 64 && RowPixel(sprite[i], j)
      ensures (y0 + i) * 64 + x0 + j < fbSize
    {
      assert Pixel(sprite, i, j);
    }
  }

  /** The inner draw loop written as recursion: the pixels of one row byte
      are visited from column j on, starting from buffer fb and collision
      flag hit, the row's cells starting at index base; the row ends at
      column 8 or at the first column past the right edge.  A set pixel
      whose cell is beyond the buffer, which RowFits rules out, is passed
      over. */
  function RowFrom(fb: seq<bool>, hit: bool, row: u8, x0: nat, base: nat, j: nat): (r: (seq<bool>, bool))
    requires j <= 8
    ensures |r.0| == |fb|
    decreases 8 - j
  {
    if j == 8 || x0 + j >= 64 then (fb, hit)
    else
      var k := base + x0 + j;
      if RowPixel(row, j) && k < |fb| then RowFrom(fb[k := !fb[k]], hit || fb[k], row, x0, base, j + 1)
      else RowFrom(fb, hit, row, x0, base, j + 1)
  }

  /** The outer draw loop: the rows from i on, each drawn by RowFrom. */
  function RowsFrom(fb: seq<bool>, hit: bool, sprite: seq<u8>, x0: nat, y0: nat, i: nat): (r: (seq<bool>, bool))
    requires i <= |sprite|
    ensures |r.0| == |fb|
    decreases |sprite| - i
  {
    if i == |sprite| then (fb, hit)
    else
      var drawn := RowFrom(fb, hit, sprite[i], x0, (y0 + i) * 64, 0);
      RowsFrom(drawn.0, drawn.1, sprite, x0, y0, i + 1)
  }

  /** Finishing row i from column j, from the buffer and collision flag
      left once the first i * 8 + j pixels are drawn, leaves the first
      (i + 1) * 8 drawn. */
  lemma {:induction false} RowFromComposite(fb: seq<bool>, sprite: seq<u8>, x0: nat, y0: nat, i: nat, j: nat, p: nat,
                                            cur: seq<bool>, hit: bool)
    requires i < |sprite| && j <= 8 && Fits(|fb|, sprite, x0, y0) && p == i * 8 + j
    requires cur == CompositeUpTo(fb, sprite, x0, y0, p) && hit == CollidesUpTo(fb, sprite, x0, y0, p)
    ensures RowFrom(cur, hit, sprite[i], x0, (y0 + i) * 64, j)
         == (CompositeUpTo(fb, sprite, x0, y0, (i + 1) * 8), CollidesUpTo(fb, sprite, x0, y0, (i + 1) * 8))
    decreases 8 - j
  {
    if j == 8 || x0 + j >= 64 {
      CompositeRowEnd(fb, sprite, x0, y0, i, j, p);
    } else if Pixel(sprite, i, j) {
      var k0 := (y0 + i) * 64 + x0 + j;
      assert k0 < |fb|;
      CompositeFlip(fb, sprite, x0, y0, i, j, k0, p);
      RowFromComposite(fb, sprite, x0, y0, i, j + 1, p + 1, cur[k0 := !cur[k0]], hit || cur[k0]);
    } else {
      CompositeSkip(fb, sprite, x0, y0, i, j, p);
      RowFromComposite(fb, sprite, x0, y0, i, j + 1, p + 1, cur, hit);
    }
  }

  /** Drawing row i after the first i rows are drawn leaves the first i + 1
      rows drawn. */
  lemma DrawRowStep(fb: seq<bool>, sprite: seq<u8>, x0: nat, y0: nat, i: nat, p: nat)
    requires i < |sprite| && Fits(|fb|, sprite, x0, y0) && p == 8 * i
    ensures RowFrom(CompositeUpTo(fb, sprite, x0, y0, p), CollidesUpTo(fb, sprite, x0, y0, p),
                    sprite[i], x0, (y0 + i) * 64, 0)
         == (CompositeUpTo(fb, sprite, x0, y0, p + 8), CollidesUpTo(fb, sprite, x0, y0, p + 8))
  {
    RowFromComposite(fb, sprite, x0, y0, i, 0, p, CompositeUpTo(fb, sprite, x0, y0, p), CollidesUpTo(fb, sprite, x0, y0, p));
  }

  /** Drawing the rows from i on, after the first i rows are drawn, yields
      the whole composite and the whole collision flag. */
  lemma {:induction false} RowsFromComposite(fb: seq<bool>, sprite: seq<u8>, x0: nat, y0: nat, i: nat)
    requires i <= |sprite| && Fits(|fb|, sprite, x0, y0)
    ensures RowsFrom(CompositeUpTo(fb, sprite, x0, y0, i * 8), CollidesUpTo(fb, sprite, x0, y0, i * 8), sprite, x0, y0, i)
         == (Composite(fb, sprite, x0, y0), Collides(fb, sprite, x0, y0))
    decreases |sprite| - i
  {
    if i == |sprite| {
      CompositeFinish(fb, sprite, x0, y0);
    } else {
      RowFromComposite(fb, sprite, x0, y0, i, 0, i * 8, CompositeUpTo(fb, sprite, x0, y0, i * 8), CollidesUpTo(fb, sprite, x0, y0, i * 8));
      RowsFromComposite(fb, sprite, x0, y0, i + 1);
    }
  }

  /** The row-by-row, pixel-by-pixel draw computes the composite, and its
      flag says whether some lit cell went dark. */
  lemma DrawLoop(fb: seq<bool>, sprite: seq<u8>, x0: nat, y0: nat)
    requires Fits(|fb|, sprite, x0, y0)
    ensures RowsFrom(fb, false, sprite, x0, y0, 0) == (Composite(fb, sprite, x0, y0), Collides(fb, sprite, x0, y0))
  {
    CompositeStart(fb, sprite, x0, y0);
    RowsFromComposite(fb, sprite, x0, y0, 0);
  }

  /** Drawing the same sprite twice at the same place restores the buffer. */
  lemma CompositeInvolution(fb: seq<bool>, sprite: seq<u8>, x0: nat, y0: nat)
    ensures Composite(Composite(fb, sprite, x0, y0), sprite, x0, y0) == fb
  {
  }

  /** The second of two identical draws collides exactly when the first
      turned some cell on. */
  lemma RedrawCollides(fb: seq<bool>, sprite: seq<u8>, x0: nat, y0: nat)
    ensures Collides(Composite(fb, sprite, x0, y0), sprite, x0, y0)
        <==> exists k :: 0 <= k < |fb| && Covered(sprite, x0, y0, k) && !fb[k]
  {
    var fb' := Composite(fb, sprite, x0, y0);
    if exists k :: 0 <= k < |fb| && Covered(sprite, x0, y0, k) && !fb[k] {
      var k :| 0 <= k < |fb| && Covered(sprite, x0, y0, k) && !fb[k];
      assert fb'[k];
    }
  }

  /** The cell under pixel (i, j) ends up flipped exactly when the pixel is set. */
  lemma CompositeCell(fb: seq<bool>, sprite: seq<u8>, x0: nat, y0: nat, i: nat, j: nat)
    requires i < |sprite| && j < 8 && x0 + j < 64
    requires (y0 + i) * 64 + x0 + j < |fb|
    ensures var k := (y0 + i) * 64 + x0 + j;
      Composite(fb, sprite, x0, y0)[k] == (fb[k] != Pixel(sprite, i, j))
  {
    CoveredAt(sprite, x0, y0, i, j);
  }

  /** A cell outside the sprite's rectangle, and in particular any cell left
      of the anchor column (nothing wraps round from the right edge), is
      left alone. */
  lemma CompositeOutside(fb: seq<bool>, sprite: seq<u8>, x0: nat, y0: nat, k: nat)
    requires k < |fb|
    requires k / 64 < y0 || k / 64 >= y0 + |sprite| || k % 64 < x0 || k % 64 >= x0 + 8
    ensures Composite(fb, sprite, x0, y0)[k] == fb[k]
  {
  }
}
