/**
 * The tile grid of P5/src/ga.py: 16 rows of 200 one-character tiles,
 * `clip`, the fixed template `Individual_Grid.empty_individual` starts
 * from, and the two ways the painter writes a cell: with a clipped index,
 * and with a raw Python index that may be negative or out of range.
 */
module Level {
  import opened Wrappers

  const Width: nat := 200
  const Height: nat := 16

  type Grid = seq<seq<char>>

  /** Every grid the painter produces is Height rows of Width tiles. */
  predicate Shaped(g: Grid) {
    |g| == Height && forall i :: 0 <= i < |g| ==> |g[i]| == Width
  }

  /** `clip(lo, val, hi)`. */
  function Clip(lo: int, val: int, hi: int): (r: int)
    ensures lo <= hi ==> lo <= r <= hi
    ensures lo <= val <= hi ==> r == val
  {
    if val < lo then lo else if val > hi then hi else val
  }

  /** On a non-empty range, `clip` picks the point of `[lo, hi]` nearest to `val`. */
  lemma ClipNearest(lo: int, val: int, hi: int, q: int)
    requires lo <= hi && lo <= q <= hi
    ensures var r := Clip(lo, val, hi);
            (r - val) * (r - val) <= (q - val) * (q - val)
  {
    var r := Clip(lo, val, hi);
    if val < lo {
      assert 0 < r - val <= q - val;
    } else if val > hi {
      assert q - val <= r - val < 0;
    }
  }

  lemma ClipIdempotent(lo: int, val: int, hi: int)
    requires lo <= hi
    ensures Clip(lo, Clip(lo, val, hi), hi) == Clip(lo, val, hi)
  {
  }

  /** The tile the template has at row `i`, column `j`. */
  function TemplateTile(i: int, j: int): char {
    if i == Height - 1 then 'X'
    else if i == Height - 2 && j == 0 then 'm'
    else if j == Width - 1 && i == 7 then 'v'
    else if j == Width - 1 && 8 <= i < 14 then 'f'
    else if j == Width - 1 && i == 14 then 'X'
    else '-'
  }

  /** Replaces one in-range cell. */
  function Put(g: Grid, i: int, j: int, t: char): (r: Grid)
    requires Shaped(g) && 0 <= i < Height && 0 <= j < Width
    ensures Shaped(r)
    ensures forall a, b :: 0 <= a < Height && 0 <= b < Width ==>
              r[a][b] == if a == i && b == j then t else g[a][b]
  {
    g[i := g[i][j := t]]
  }

  /** The template's starting point: every tile "-", then the floor row all "X". */
  function Floor(): (g: Grid)
    ensures Shaped(g)
    ensures forall i, j :: 0 <= i < Height && 0 <= j < Width ==> g[i][j] == if i == Height - 1 then 'X' else '-'
  {
    var blank := seq(Width, _ => '-');
    seq(Height, i => if i == Height - 1 then seq(Width, _ => 'X') else blank)
  }

  /**
   * `Individual_Grid.empty_individual`, built as the source builds it:
   * the floor, then Mario's start, the flagpole top, the flag and the
   * block under the pole, each written over the last.
   */
  function EmptyTemplate(): (g: Grid)
    ensures Shaped(g)
    ensures forall i, j :: 0 <= i < Height && 0 <= j < Width ==> g[i][j] == TemplateTile(i, j)
  {
    var g2 := Put(Put(Floor(), 14, 0, 'm'), 7, Width - 1, 'v');
    var g8 := Put(Put(Put(Put(Put(Put(g2, 8, Width - 1, 'f'), 9, Width - 1, 'f'), 10, Width - 1, 'f'),
                          11, Width - 1, 'f'), 12, Width - 1, 'f'), 13, Width - 1, 'f');
    Put(Put(g8, 14, Width - 1, 'X'), 15, Width - 1, 'X')
  }

  /** `base[row][col] = t` with Python's indexing: negative indices count from the end, others raise IndexError. */
  function SetCell(g: Grid, row: int, col: int, t: char): (r: Result<Grid>)
    requires Shaped(g)
    ensures r.Ok? <==> -(Height as int) <= row < Height && -(Width as int) <= col < Width
    ensures r.Ok? ==> Shaped(r.value)
    ensures r.Ok? ==> forall a, b :: 0 <= a < Height && 0 <= b < Width ==>
              r.value[a][b] == if a == row % Height && b == col % Width then t else g[a][b]
    ensures r.Err? ==> r.error == IndexOutOfRange
  {
    if -(Height as int) <= row < Height && -(Width as int) <= col < Width then
      Ok(Put(g, row % Height, col % Width, t))
    else Err(IndexOutOfRange)
  }

  /** A cell list the painter writes in order. */
  predicate InGrid(cells: seq<(int, int)>) {
    forall k :: 0 <= k < |cells| ==> 0 <= cells[k].0 < Height && 0 <= cells[k].1 < Width
  }

  /** Writes `t` into each listed cell in turn. */
  function PaintCells(g: Grid, cells: seq<(int, int)>, t: char): (r: Grid)
    requires Shaped(g) && InGrid(cells)
    ensures Shaped(r)
    ensures forall a, b :: 0 <= a < Height && 0 <= b < Width ==>
              r[a][b] == if (a, b) in cells then t else g[a][b]
    decreases |cells|
  {
    if cells == [] then g
    else
      var r := PaintCells(Put(g, cells[0].0, cells[0].1, t), cells[1..], t);
      assert forall c :: c in cells <==> c == cells[0] || c in cells[1..];
      r
  }

  /**
   * The cells `(row, clip(1, x + k, Width - 2))` for `k` in `range(w)`:
   * the run a hole or a platform paints.
   */
  function RowRun(row: int, x: int, w: int): (cells: seq<(int, int)>)
    requires 0 <= row < Height
    ensures InGrid(cells)
  {
    var cells := seq(if w < 0 then 0 else w, k => (row, Clip(1, x + k, Width - 2)));
    assert forall k :: 0 <= k < |cells| ==> cells[k] == (row, Clip(1, x + k, Width - 2));
    cells
  }

  /**
   * A run is the contiguous stretch of its row between the clipped first
   * and last columns; it never reaches the border columns 0 and Width - 1.
   */
  lemma RowRunCells(row: int, x: int, w: int, i: int, j: int)
    requires 0 <= row < Height
    ensures (i, j) in RowRun(row, x, w) <==>
              w >= 1 && i == row && Clip(1, x, Width - 2) <= j <= Clip(1, x + w - 1, Width - 2)
    ensures (i, j) in RowRun(row, x, w) ==> 1 <= j <= Width - 2
  {
    var cells := RowRun(row, x, w);
    var lo, hi := Clip(1, x, Width - 2), Clip(1, x + w - 1, Width - 2);
    if (i, j) in cells {
      var k :| 0 <= k < |cells| && cells[k] == (i, j);
      assert lo <= Clip(1, x + k, Width - 2) <= hi;
    }
    if w >= 1 && i == row && lo <= j <= hi {
      var k := if j - x < 0 then 0 else if j - x > w - 1 then w - 1 else j - x;
      assert cells[k] == (row, Clip(1, x + k, Width - 2));
      assert Clip(1, x + k, Width - 2) == j;
    }
  }
}
