/**
 * `Individual_DE` of P5/src/ga.py: a genome of design elements, each
 * painted onto the template in a fixed order, and the cached level.
 */
module DesignElements {
  import opened Wrappers
  import opened Level

  /**
   * The eight design-element tuples. The source's tuples start with `x`
   * and the type name; the remaining fields follow in tuple order.
   */
  datatype DesignElement =
    | Hole(x: int, w: int)                               // (x, "0_hole", w)
    | Platform(x: int, w: int, h: int, madeof: char)     // (x, "1_platform", w, h, madeof)
    | Enemy(x: int)                                      // (x, "2_enemy")
    | Coin(x: int, y: int)                               // (x, "3_coin", y)
    | Block(x: int, y: int, breakable: bool)             // (x, "4_block", y, breakable)
    | QBlock(x: int, y: int, powerup: bool)              // (x, "5_qblock", y, has_powerup)
    | Stairs(x: int, h: int, dx: int)                    // (x, "6_stairs", h, dx)
    | Pipe(x: int, h: int)                               // (x, "7_pipe", h)

  // ---------------------------------------------------------------------
  // The painting order: `sorted(genome, key=lambda de: (de[1], de[0], de))`
  // ---------------------------------------------------------------------

  function BoolKey(b: bool): int {
    if b then 1 else 0
  }

  /**
   * The sort key as integers: the digit the type name starts with (type
   * names compare by it), then `x`, then the remaining fields, which is
   * where comparing the whole tuple `de` goes once type and `x` agree.
   */
  function Key(d: DesignElement): seq<int> {
    match d
    case Hole(x, w) => [0, x, w]
    case Platform(x, w, h, m) => [1, x, w, h, m as int]
    case Enemy(x) => [2, x]
    case Coin(x, y) => [3, x, y]
    case Block(x, y, b) => [4, x, y, BoolKey(b)]
    case QBlock(x, y, p) => [5, x, y, BoolKey(p)]
    case Stairs(x, h, dx) => [6, x, h, dx]
    case Pipe(x, h) => [7, x, h]
  }

  lemma KeyInjective(a: DesignElement, b: DesignElement)
    requires Key(a) == Key(b)
    ensures a == b
  {
    var ka, kb := Key(a), Key(b);
    assert ka[0] == kb[0];
    match a
    case Platform(_, _, _, m) =>
      assert ka[4] == kb[4];
    case Block(_, _, _) =>
      assert ka[3] == kb[3];
    case QBlock(_, _, _) =>
      assert ka[3] == kb[3];
    case _ =>
  }

  /** Python's tuple order: lexicographic, a proper prefix first. */
  predicate LexLe(a: seq<int>, b: seq<int>)
    decreases |a|
  {
    |a| == 0 || (|b| > 0 && (a[0] < b[0] || (a[0] == b[0] && LexLe(a[1..], b[1..]))))
  }

  lemma {:induction false} LexTotal(a: seq<int>, b: seq<int>)
    ensures LexLe(a, b) || LexLe(b, a)
    decreases |a|
  {
    if |a| > 0 && |b| > 0 && a[0] == b[0] {
      LexTotal(a[1..], b[1..]);
    }
  }

  lemma {:induction false} LexAntisymmetric(a: seq<int>, b: seq<int>)
    requires LexLe(a, b) && LexLe(b, a)
    ensures a == b
    decreases |a|
  {
    if |a| > 0 {
      LexAntisymmetric(a[1..], b[1..]);
      assert a == [a[0]] + a[1..] && b == [b[0]] + b[1..];
    }
  }

  lemma {:induction false} LexTransitive(a: seq<int>, b: seq<int>, c: seq<int>)
    requires LexLe(a, b) && LexLe(b, c)
    ensures LexLe(a, c)
    decreases |a|
  {
    if |a| > 0 && a[0] == b[0] && b[0] == c[0] {
      LexTransitive(a[1..], b[1..], c[1..]);
    }
  }

  predicate Sorted(s: seq<DesignElement>) {
    forall i, j :: 0 <= i < j < |s| ==> LexLe(Key(s[i]), Key(s[j]))
  }

  lemma TailMultiset(s: seq<DesignElement>)
    requires |s| > 0
    ensures multiset(s[1..]) == multiset(s) - multiset{s[0]}
  {
    assert s == [s[0]] + s[1..];
  }

  lemma SortedCons(x: DesignElement, s: seq<DesignElement>)
    requires Sorted(s) && forall j :: 0 <= j < |s| ==> LexLe(Key(x), Key(s[j]))
    ensures Sorted([x] + s)
  {
    var r := [x] + s;
    forall i, j | 0 <= i < j < |r| ensures LexLe(Key(r[i]), Key(r[j])) {
      if i > 0 {
        assert r[i] == s[i - 1] && r[j] == s[j - 1];
      }
    }
  }

  /** Inserts `d` before the first element whose key is not below its own. */
  function Insert(d: DesignElement, s: seq<DesignElement>): (r: seq<DesignElement>)
    requires Sorted(s)
    ensures Sorted(r)
    ensures multiset(r) == multiset(s) + multiset{d}
  {
    if s == [] then [d]
    else if LexLe(Key(d), Key(s[0])) then
      forall j | 0 < j < |s| ensures LexLe(Key(d), Key(s[j])) {
        LexTransitive(Key(d), Key(s[0]), Key(s[j]));
      }
      SortedCons(d, s);
      [d] + s
    else
      LexTotal(Key(d), Key(s[0]));
      var rest := Insert(d, s[1..]);
      forall j | 0 <= j < |rest| ensures LexLe(Key(s[0]), Key(rest[j])) {
        assert rest[j] in multiset(rest);
        if rest[j] != d {
          assert rest[j] in multiset(s[1..]);
          var k :| 0 <= k < |s[1..]| && s[1..][k] == rest[j];
          assert s[k + 1] == rest[j];
        }
      }
      SortedCons(s[0], rest);
      TailMultiset(s);
      [s[0]] + rest
  }

  /** `sorted(genome, key=...)`, as an insertion sort. */
  function SortElements(s: seq<DesignElement>): (r: seq<DesignElement>)
    ensures Sorted(r)
    ensures multiset(r) == multiset(s)
  {
    if s == [] then []
    else
      assert s == [s[0]] + s[1..];
      Insert(s[0], SortElements(s[1..]))
  }

  lemma {:induction false} LexReflexive(a: seq<int>)
    ensures LexLe(a, a)
    decreases |a|
  {
    if |a| > 0 {
      LexReflexive(a[1..]);
    }
  }

  /** The first element of a sorted sequence has the least key of all its elements. */
  lemma SortedFirstLeast(s: seq<DesignElement>, x: DesignElement)
    requires Sorted(s) && x in multiset(s)
    ensures |s| > 0 && LexLe(Key(s[0]), Key(x))
  {
    var i :| 0 <= i < |s| && s[i] == x;
    if i == 0 {
      LexReflexive(Key(x));
    }
  }

  lemma SortedTail(s: seq<DesignElement>)
    requires Sorted(s) && |s| > 0
    ensures Sorted(s[1..])
  {
    forall i, j | 0 <= i < j < |s| - 1 ensures LexLe(Key(s[1..][i]), Key(s[1..][j])) {
      assert s[1..][i] == s[i + 1] && s[1..][j] == s[j + 1];
    }
  }

  /** Two sorted arrangements of one genome start with the same element and agree on the rest as multisets. */
  lemma SortedHeads(a: seq<DesignElement>, b: seq<DesignElement>)
    requires Sorted(a) && Sorted(b) && multiset(a) == multiset(b) && |a| > 0
    ensures |b| > 0 && a[0] == b[0]
    ensures Sorted(a[1..]) && Sorted(b[1..]) && multiset(a[1..]) == multiset(b[1..])
  {
    SortedFirstLeast(b, a[0]);
    SortedFirstLeast(a, b[0]);
    LexAntisymmetric(Key(a[0]), Key(b[0]));
    KeyInjective(a[0], b[0]);
    TailMultiset(a);
    TailMultiset(b);
    SortedTail(a);
    SortedTail(b);
  }

  /** The order is total on elements, so there is only one sorted arrangement of a genome. */
  lemma {:induction false} SortedUnique(a: seq<DesignElement>, b: seq<DesignElement>)
    requires Sorted(a) && Sorted(b) && multiset(a) == multiset(b)
    ensures a == b
    decreases |a|
  {
    if |a| > 0 {
      SortedHeads(a, b);
      SortedUnique(a[1..], b[1..]);
      assert a == [a[0]] + a[1..] && b == [b[0]] + b[1..];
    } else {
      assert |multiset(b)| == 0;
    }
  }

  // ---------------------------------------------------------------------
  // Painting one element
  // ---------------------------------------------------------------------

  /** Python accepts `base[row][col]` exactly for these indices. */
  predicate Indexable(row: int, col: int) {
    -(Height as int) <= row < Height && -(Width as int) <= col < Width
  }

  /** The elements whose painting stays within Python's index range. */
  predicate Fits(d: DesignElement) {
    match d
    case Block(x, y, _) => Indexable(y, x)
    case QBlock(x, y, _) => Indexable(y, x)
    case Coin(x, y) => Indexable(y, x)
    case Enemy(x) => Indexable(Height - 2, x)
    case Pipe(x, h) => Indexable(Height - h - 1, x)
    case _ => true
  }

  /** `for y in range(y, stop): base[y][x] = "|"`. */
  function PipeShaft(g: Grid, x: int, y: int, stop: int): (r: Result<Grid>)
    requires Shaped(g)
    ensures r.Ok? ==> Shaped(r.value)
    ensures r.Err? ==> r.error == IndexOutOfRange
    ensures y >= stop || (-(Height as int) <= y && stop <= Height && -(Width as int) <= x < Width) ==> r.Ok?
    ensures r.Ok? && 0 <= y && 0 <= x < Width ==>
              forall a, b :: 0 <= a < Height && 0 <= b < Width ==>
                r.value[a][b] == if b == x && y <= a < stop then '|' else g[a][b]
    decreases stop - y
  {
    if y >= stop then Ok(g)
    else
      var g' := SetCell(g, y, x, '|');
      if g'.Err? then g' else PipeShaft(g'.value, x, y + 1, stop)
  }

  /** How many blocks `6_stairs` stacks in its column `x2`. */
  function StairHeight(h: int, dx: int, x2: int): int {
    if dx == 1 then x2 else h - x2
  }

  /** The cells of column `x2` of a staircase, bottom up. */
  function StairColumn(x: int, h: int, dx: int, x2: int): (cells: seq<(int, int)>)
    ensures InGrid(cells)
    ensures forall k :: 0 <= k < |cells| ==> 1 <= cells[k].1 <= Width - 2
  {
    var n := StairHeight(h, dx, x2);
    var cells := seq(if n < 0 then 0 else n, y => (Clip(0, Height - y - 1, Height - 1), Clip(1, x + x2, Width - 2)));
    assert forall k :: 0 <= k < |cells| ==>
             cells[k] == (Clip(0, Height - k - 1, Height - 1), Clip(1, x + x2, Width - 2));
    cells
  }

  /** The cells of columns `x2 .. h` of a staircase, in painting order. */
  function StairCells(x: int, h: int, dx: int, x2: int): (cells: seq<(int, int)>)
    ensures InGrid(cells)
    ensures forall k :: 0 <= k < |cells| ==> 1 <= cells[k].1 <= Width - 2
    decreases h - x2 + 1
  {
    if x2 > h then [] else StairColumn(x, h, dx, x2) + StairCells(x, h, dx, x2 + 1)
  }

  /** Paints one design element, as the branches of `to_level` do. */
  function Paint(g: Grid, d: DesignElement): (r: Result<Grid>)
    requires Shaped(g)
    ensures r.Ok? <==> Fits(d)
    ensures r.Ok? ==> Shaped(r.value)
    ensures r.Err? ==> r.error == IndexOutOfRange
  {
    match d
    case Block(x, y, b) => SetCell(g, y, x, if b then 'B' else 'X')
    case QBlock(x, y, p) => SetCell(g, y, x, if p then 'M' else '?')
    case Coin(x, y) => SetCell(g, y, x, 'o')
    case Pipe(x, h) =>
      var top := SetCell(g, Height - h - 1, x, 'T');
      if top.Err? then top else PipeShaft(top.value, x, Height - h, Height)
    case Hole(x, w) => Ok(PaintCells(g, RowRun(Height - 1, x, w), '-'))
    case Stairs(x, h, dx) => Ok(PaintCells(g, StairCells(x, h, dx, 1), 'X'))
    case Platform(x, w, h, m) => Ok(PaintCells(g, RowRun(Clip(0, Height - h - 1, Height - 1), x, w), m))
    case Enemy(x) => SetCell(g, Height - 2, x, 'E')
  }

  /**
   * Blocks, question blocks, coins and enemies write one tile at
   * `base[row][x]`, where a negative index counts from the end as in
   * Python, and leave every other cell as it was.
   */
  lemma CellPaint(g: Grid, d: DesignElement)
    requires Shaped(g) && Fits(d) && (d.Block? || d.QBlock? || d.Coin? || d.Enemy?)
    ensures Paint(g, d).Ok?
    ensures forall a, b :: 0 <= a < Height && 0 <= b < Width ==>
              Paint(g, d).value[a][b] ==
                if d.Block? && a == d.y % Height && b == d.x % Width then (if d.breakable then 'B' else 'X')
                else if d.QBlock? && a == d.y % Height && b == d.x % Width then (if d.powerup then 'M' else '?')
                else if d.Coin? && a == d.y % Height && b == d.x % Width then 'o'
                else if d.Enemy? && a == Height - 2 && b == d.x % Width then 'E'
                else g[a][b]
  {
  }

  /**
   * A hole clears the floor row between the clipped first and last
   * columns, never the border columns, and touches nothing else.
   */
  lemma HolePaint(g: Grid, x: int, w: int)
    requires Shaped(g)
    ensures Paint(g, Hole(x, w)).Ok?
    ensures forall a, b :: 0 <= a < Height && 0 <= b < Width ==>
              Paint(g, Hole(x, w)).value[a][b] ==
                if a == Height - 1 && w >= 1 && Clip(1, x, Width - 2) <= b <= Clip(1, x + w - 1, Width - 2)
                then '-' else g[a][b]
    ensures forall a :: 0 <= a < Height ==>
              Paint(g, Hole(x, w)).value[a][0] == g[a][0] && Paint(g, Hole(x, w)).value[a][Width - 1] == g[a][Width - 1]
  {
    forall a, b | 0 <= a < Height && 0 <= b < Width {
      RowRunCells(Height - 1, x, w, a, b);
    }
  }

  /**
   * A platform writes its tile along one row, `clip(0, height - h - 1, height - 1)`,
   * between the clipped first and last columns, and touches nothing else.
   */
  lemma PlatformPaint(g: Grid, x: int, w: int, h: int, m: char)
    requires Shaped(g)
    ensures Paint(g, Platform(x, w, h, m)).Ok?
    ensures forall a, b :: 0 <= a < Height && 0 <= b < Width ==>
              Paint(g, Platform(x, w, h, m)).value[a][b] ==
                if a == Clip(0, Height - h - 1, Height - 1) && w >= 1
                   && Clip(1, x, Width - 2) <= b <= Clip(1, x + w - 1, Width - 2)
                then m else g[a][b]
  {
    forall a, b | 0 <= a < Height && 0 <= b < Width {
      RowRunCells(Clip(0, Height - h - 1, Height - 1), x, w, a, b);
    }
  }

  /** A pipe of height `h` in column `x`: its top "T" sits on a shaft of `h` segments "|" reaching the floor row. */
  lemma PipePaint(g: Grid, x: int, h: int)
    requires Shaped(g) && 0 <= h < Height && 0 <= x < Width
    ensures Paint(g, Pipe(x, h)).Ok?
    ensures forall a, b :: 0 <= a < Height && 0 <= b < Width ==>
              Paint(g, Pipe(x, h)).value[a][b] ==
                if b == x && a == Height - h - 1 then 'T'
                else if b == x && Height - h <= a then '|'
                else g[a][b]
  {
  }

  /** Stairs write only "X", and never into the border columns. */
  lemma StairsPaint(g: Grid, x: int, h: int, dx: int)
    requires Shaped(g)
    ensures Paint(g, Stairs(x, h, dx)).Ok?
    ensures forall a, b :: 0 <= a < Height && 0 <= b < Width ==>
              var t := Paint(g, Stairs(x, h, dx)).value[a][b];
              t == g[a][b] || (t == 'X' && 1 <= b <= Width - 2)
  {
    var cells := StairCells(x, h, dx, 1);
    forall a, b | 0 <= a < Height && 0 <= b < Width && (a, b) in cells
      ensures 1 <= b <= Width - 2
    {
      var k :| 0 <= k < |cells| && cells[k] == (a, b);
    }
  }

  lemma StairColumnShape(x: int, h: int, dx: int, x2: int, a: int, b: int)
    requires 1 <= x + x2 <= Width - 2 && StairHeight(h, dx, x2) <= Height
    ensures (a, b) in StairColumn(x, h, dx, x2) <==>
              b == x + x2 && Height - StairHeight(h, dx, x2) <= a < Height
  {
    var col := StairColumn(x, h, dx, x2);
    if (a, b) in col {
      var k :| 0 <= k < |col| && col[k] == (a, b);
    }
    if b == x + x2 && Height - StairHeight(h, dx, x2) <= a < Height {
      assert col[Height - 1 - a] == (a, b);
    }
  }

  /**
   * Away from the borders, column `x + k` of a staircase (for `k` in
   * `1 .. h`) is filled from the floor up with `k` blocks when `dx == 1`
   * and with `h - k` blocks otherwise.
   */
  lemma {:induction false} StairCellsShape(x: int, h: int, dx: int, x2: int, a: int, b: int)
    requires 0 <= x && x + h <= Width - 2 && h <= Height && 1 <= x2
    ensures (a, b) in StairCells(x, h, dx, x2) <==>
              x2 <= b - x <= h && Height - StairHeight(h, dx, b - x) <= a < Height
    decreases h - x2 + 1
  {
    if x2 <= h {
      StairColumnShape(x, h, dx, x2, a, b);
      StairCellsShape(x, h, dx, x2 + 1, a, b);
      assert StairCells(x, h, dx, x2) == StairColumn(x, h, dx, x2) + StairCells(x, h, dx, x2 + 1);
    }
  }

  /** Away from the borders, stairs build a staircase rising to the right when `dx == 1` and falling otherwise. */
  lemma StairsPaintShape(g: Grid, x: int, h: int, dx: int)
    requires Shaped(g) && 0 <= x && x + h <= Width - 2 && h <= Height
    ensures Paint(g, Stairs(x, h, dx)).Ok?
    ensures forall a, b :: 0 <= a < Height && 0 <= b < Width ==>
              Paint(g, Stairs(x, h, dx)).value[a][b] ==
                if 1 <= b - x <= h && Height - StairHeight(h, dx, b - x) <= a then 'X' else g[a][b]
  {
    forall a, b | 0 <= a < Height && 0 <= b < Width {
      StairCellsShape(x, h, dx, 1, a, b);
    }
  }

  // ---------------------------------------------------------------------
  // to_level
  // ---------------------------------------------------------------------

  /** Paints the elements in the given order; the first IndexError ends it. */
  function PaintAll(g: Grid, ds: seq<DesignElement>): (r: Result<Grid>)
    requires Shaped(g)
    ensures r.Ok? <==> forall k :: 0 <= k < |ds| ==> Fits(ds[k])
    ensures r.Ok? ==> Shaped(r.value)
    ensures r.Err? ==> r.error == IndexOutOfRange
    decreases |ds|
  {
    if ds == [] then Ok(g)
    else
      var g' := Paint(g, ds[0]);
      if g'.Err? then g'
      else
        var r := PaintAll(g'.value, ds[1..]);
        assert forall k :: 1 <= k < |ds| ==> ds[k] == ds[1..][k - 1];
        r
  }

  /** The level a genome describes: the template with its elements painted in sorted order. */
  function Render(genome: seq<DesignElement>): (r: Result<Grid>)
    ensures r.Ok? <==> forall d :: d in genome ==> Fits(d)
    ensures r.Ok? ==> Shaped(r.value)
  {
    var sorted := SortElements(genome);
    assert forall d :: d in genome <==> d in multiset(sorted);
    PaintAll(EmptyTemplate(), sorted)
  }

  /** An `Individual_DE`: its genome and the cached level, `_level`. */
  datatype IndividualDE = IndividualDE(genome: seq<DesignElement>, level: Option<Grid>)

  /** `Individual_DE(genome)`: nothing cached yet. */
  function NewIndividual(genome: seq<DesignElement>): IndividualDE {
    IndividualDE(genome, None)
  }

  /**
   * `Individual_DE.to_level`: the cached level if there is one, otherwise
   * the rendered level, which the returned individual caches. An
   * IndexError leaves the cache empty.
   */
  function ToLevel(ind: IndividualDE): (r: Result<(Grid, IndividualDE)>)
    ensures r.Ok? ==> r.value.1 == ind.(level := Some(r.value.0))
    ensures ind.level.None? ==> (r.Ok? <==> forall d :: d in ind.genome ==> Fits(d))
    ensures r.Ok? && ind.level.None? ==> Shaped(r.value.0)
  {
    match ind.level
    case Some(g) => Ok((g, ind))
    case None =>
      var g := Render(ind.genome);
      if g.Err? then Err(g.error) else Ok((g.value, ind.(level := Some(g.value))))
  }

  /** A second call returns the level the first one cached. */
  lemma ToLevelCached(ind: IndividualDE)
    requires ToLevel(ind).Ok?
    ensures ToLevel(ToLevel(ind).value.1) == ToLevel(ind)
  {
  }

  /** An empty genome renders the template itself. */
  lemma ToLevelEmpty()
    ensures ToLevel(NewIndividual([])) == Ok((EmptyTemplate(), IndividualDE([], Some(EmptyTemplate()))))
  {
  }

  /** The level depends only on which elements the genome holds, not on their order (so `heapify` does not matter). */
  lemma RenderOrderFree(g1: seq<DesignElement>, g2: seq<DesignElement>)
    requires multiset(g1) == multiset(g2)
    ensures Render(g1) == Render(g2)
  {
    SortedUnique(SortElements(g1), SortElements(g2));
  }
}
