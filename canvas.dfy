/**
 * The canvas of `canvas/mod.rs`: a `width` x `height` grid of colours kept
 * as one flat row-major array (cell `(x, y)` at index `y * width + x`),
 * with bounds-checked reads and writes and a row-major pixel iterator.
 *
 * `Grid` is the value a canvas holds at one moment; the `Canvas` class
 * owns the array and is specified by the `Grid` it holds.
 */
module Canvas {
  import opened Wrappers
  import opened Octets
  import opened Events

  /** `Pixel`: a coordinate and its colour. */
  datatype Pixel = Pixel(x: U16, y: U16, color: Color)

  // The predefined colours of `canvas::colors`.
  const White := Color(255, 255, 255)
  const Black := Color(0, 0, 0)
  const Red := Color(255, 0, 0)
  const Green := Color(0, 255, 0)
  const Blue := Color(0, 0, 255)
  const Yellow := Color(255, 255, 0)
  const Cyan := Color(0, 255, 255)
  const Magenta := Color(255, 0, 255)

  /**
   * Position of cell `(x, y)` in the flat array, counted row by row: `y`
   * whole rows of `width` cells, then `x` more (`IndexValue`: it is
   * `y * width + x`).
   */
  function Index(width: nat, x: nat, y: nat): nat
  {
    if y == 0 then x else Index(width, x, y - 1) + width
  }

  lemma {:induction false} IndexValue(width: nat, x: nat, y: nat)
    ensures Index(width, x, y) == y * width + x
  {
    if y > 0 {
      IndexValue(width, x, y - 1);
      MulPred(y, width);
    }
  }

  /** The next column's index is one more. */
  lemma {:induction false} IndexNextColumn(width: nat, x: nat, y: nat)
    ensures Index(width, x + 1, y) == Index(width, x, y) + 1
  {
    if y > 0 {
      IndexNextColumn(width, x, y - 1);
    }
  }

  /** After the last column of a row comes the first column of the next. */
  lemma {:induction false} IndexNextRow(width: nat, x: nat, y: nat)
    requires x + 1 == width
    ensures Index(width, 0, y + 1) == Index(width, x, y) + 1
  {
    IndexValue(width, 0, y + 1);
    IndexValue(width, x, y);
    MulPred(y + 1, width);
  }

  lemma MulPred(m: nat, w: nat)
    requires m > 0
    ensures (m - 1) * w + w == m * w
  {
  }

  /** Every in-bounds cell has an index inside the array. */
  lemma IndexInBounds(width: nat, height: nat, x: nat, y: nat)
    requires x < width && y < height
    ensures Index(width, x, y) < width * height
  {
    IndexValue(width, x, y);
    calc {
      y * width + x;
    <
      y * width + width;
    ==
      (y + 1) * width;
    <=
      { MulMono(y + 1, height, width); }
      height * width;
    }
  }

  lemma MulMono(a: nat, b: nat, c: nat)
    requires a <= b
    ensures a * c <= b * c
  {
  }

  /** An index gives its cell back: `x` is the remainder, `y` the quotient. */
  lemma IndexDivMod(width: nat, x: nat, y: nat)
    requires x < width
    ensures Index(width, x, y) / width == y && Index(width, x, y) % width == x
  {
    // Euclidean division is unique.
    IndexValue(width, x, y);
    DivModUnique(Index(width, x, y), width, y, x);
  }

  lemma DivModUnique(i: nat, w: nat, q: nat, r: nat)
    requires r < w && i == q * w + r
    ensures i / w == q && i % w == r
  {
    var q', r' := i / w, i % w;
    assert i == q' * w + r';
    if q' < q {
      MulMono(q' + 1, q, w);
      assert false;
    } else if q < q' {
      MulMono(q + 1, q', w);
      assert false;
    }
  }

  /** Distinct in-bounds cells never share an index. */
  lemma IndexInjective(width: nat, x1: nat, y1: nat, x2: nat, y2: nat)
    requires x1 < width && x2 < width
    requires Index(width, x1, y1) == Index(width, x2, y2)
    ensures x1 == x2 && y1 == y2
  {
    IndexDivMod(width, x1, y1);
    IndexDivMod(width, x2, y2);
  }

  /** The cells of a canvas at one moment. */
  datatype Grid = Grid(width: U16, height: U16, cells: seq<Color>)
  {
    /** The array holds exactly `width * height` cells. */
    ghost predicate Valid()
    {
      |cells| == width * height
    }

    predicate InBounds(x: U16, y: U16)
    {
      x < width && y < height
    }
  }

  /** The contents `Canvas::new` allocates: `width * height` white cells. */
  function NewGrid(width: U16, height: U16): (g: Grid)
    ensures g.Valid() && g.width == width && g.height == height
    ensures forall i :: 0 <= i < |g.cells| ==> g.cells[i] == White
  {
    Grid(width, height, seq(width * height, _ => White))
  }

  /** `get_pixel` on a grid: `None` out of bounds, else the cell at `Index`. */
  function Get(g: Grid, x: U16, y: U16): (c: Option<Color>)
    requires g.Valid()
    ensures c.None? <==> !g.InBounds(x, y)
    ensures c.Some? ==> Index(g.width, x, y) < |g.cells| && c.value == g.cells[Index(g.width, x, y)]
  {
    if !g.InBounds(x, y) then None
    else
      IndexInBounds(g.width, g.height, x, y);
      Some(g.cells[Index(g.width, x, y)])
  }

  /** `set_pixel` on a grid: out of bounds nothing changes. */
  function Set(g: Grid, x: U16, y: U16, color: Color): (r: Grid)
    requires g.Valid()
    ensures r.Valid() && r.width == g.width && r.height == g.height
    ensures !g.InBounds(x, y) ==> r == g
  {
    if !g.InBounds(x, y) then g
    else
      IndexInBounds(g.width, g.height, x, y);
      g.(cells := g.cells[Index(g.width, x, y) := color])
  }

  /** After `set_pixel`, the cell reads back the new colour and every other cell is unchanged. */
  lemma GetSet(g: Grid, x: U16, y: U16, color: Color, x': U16, y': U16)
    requires g.Valid() && g.InBounds(x, y)
    ensures Get(Set(g, x, y, color), x', y') == if x' == x && y' == y then Some(color) else Get(g, x', y')
  {
    if g.InBounds(x', y') && (x' != x || y' != y) {
      if Index(g.width, x, y) == Index(g.width, x', y') {
        IndexInjective(g.width, x, y, x', y');
      }
    }
  }

  /** Two grids of the same size are equal when every cell reads the same. */
  lemma GridExtensionality(g: Grid, h: Grid)
    requires g.Valid() && h.Valid() && g.width == h.width && g.height == h.height
    requires forall x: U16, y: U16 :: Get(g, x, y) == Get(h, x, y)
    ensures g == h
  {
    forall i | 0 <= i < |g.cells|
      ensures g.cells[i] == h.cells[i]
    {
      var x, y := CellOf(g.width, g.height, i);
      assert Get(g, x, y) == Get(h, x, y);
    }
  }

  /** Every index below `width * height` is the index of one in-bounds cell. */
  lemma CellOf(width: nat, height: nat, i: nat) returns (x: nat, y: nat)
    requires i < width * height
    ensures x < width && y < height && Index(width, x, y) == i
  {
    x, y := i % width, i / width;
    IndexValue(width, x, y);
    if y >= height {
      MulMono(height, y, width);
      assert false;
    }
  }

  lemma CellExists(g: Grid, i: nat)
    requires g.Valid() && i < |g.cells|
    ensures exists x: U16, y: U16 :: g.InBounds(x, y) && Index(g.width, x, y) == i
  {
    var x, y := CellOf(g.width, g.height, i);
    assert g.InBounds(x, y) && Index(g.width, x, y) == i;
  }

  /** The pixel at position `i` of the row-major order. */
  ghost function PixelAt(g: Grid, i: nat): (p: Pixel)
    requires g.Valid() && i < |g.cells|
    ensures g.InBounds(p.x, p.y) && Index(g.width, p.x, p.y) == i
    ensures p.color == g.cells[i]
  {
    CellExists(g, i);
    var x: U16, y: U16 :| g.InBounds(x, y) && Index(g.width, x, y) == i;
    Pixel(x, y, g.cells[i])
  }

  /** Every pixel of the grid, `y` outer and `x` inner. */
  ghost function RowMajor(g: Grid): (ps: seq<Pixel>)
    requires g.Valid()
    ensures |ps| == g.width * g.height
  {
    seq(|g.cells|, i requires 0 <= i < |g.cells| => PixelAt(g, i))
  }

  /**
   * Each cell appears exactly once in the row-major order, at its index,
   * with its colour.
   */
  lemma RowMajorCell(g: Grid, x: U16, y: U16)
    requires g.Valid() && g.InBounds(x, y)
    ensures Index(g.width, x, y) < |RowMajor(g)|
    ensures RowMajor(g)[Index(g.width, x, y)] == Pixel(x, y, Get(g, x, y).value)
  {
    var i := Index(g.width, x, y);
    IndexInBounds(g.width, g.height, x, y);
    var p := RowMajor(g)[i];
    IndexInjective(g.width, p.x, p.y, x, y);
  }

  /** Row-major order: a later position lies on a later row, or further along the same row. */
  lemma RowMajorOrdered(g: Grid, i: nat, j: nat)
    requires g.Valid() && i < j < |g.cells|
    ensures var p, q := RowMajor(g)[i], RowMajor(g)[j];
      p.y < q.y || (p.y == q.y && p.x < q.x)
  {
    var p, q := RowMajor(g)[i], RowMajor(g)[j];
    IndexOrder(g.width, p.x, p.y, q.x, q.y);
  }

  /** A smaller index lies on an earlier row, or further left on the same row. */
  lemma IndexOrder(width: nat, x1: nat, y1: nat, x2: nat, y2: nat)
    requires x1 < width && x2 < width
    requires Index(width, x1, y1) < Index(width, x2, y2)
    ensures y1 < y2 || (y1 == y2 && x1 < x2)
  {
    IndexValue(width, x1, y1);
    IndexValue(width, x2, y2);
    if y2 < y1 {
      MulMono(y2 + 1, y1, width);
    }
  }

  class Canvas {
    const width: U16
    const height: U16
    const data: array<Color>

    ghost predicate Valid()
      reads this
    {
      data.Length == width * height
    }

    /** The grid the canvas holds now. */
    ghost function Model(): (g: Grid)
      reads this, data
      ensures g.width == width && g.height == height && g.cells == data[..]
    {
      Grid(width, height, data[..])
    }

    /** `Canvas::new`: a fresh all-white grid. */
    constructor (width: U16, height: U16)
      ensures Valid() && Model() == NewGrid(width, height)
      ensures fresh(data)
    {
      this.width := width;
      this.height := height;
      data := new Color[width * height](_ => White);
      new;
      assert data[..] == NewGrid(width, height).cells;
    }

    /** `Canvas::get_pixel`, read from the array. */
    function GetPixel(x: U16, y: U16): (c: Option<Color>)
      requires Valid()
      reads this, data
      ensures c == Get(Model(), x, y)
    {
      if x >= width || y >= height then None
      else
        IndexInBounds(width, height, x, y);
        IndexValue(width, x, y);
        Some(data[y as int * width as int + x as int])
    }

    /** `Canvas::set_pixel`: `Err` out of bounds, else write the one cell in place. */
    method SetPixel(x: U16, y: U16, color: Color) returns (r: Result<(), ()>)
      requires Valid()
      modifies data
      ensures Valid()
      ensures r.Ok? <==> old(Model()).InBounds(x, y)
      ensures Model() == Set(old(Model()), x, y, color)
    {
      if x >= width || y >= height {
        return Err(());
      }
      IndexInBounds(width, height, x, y);
      IndexValue(width, x, y);
      var index := y as int * width as int + x as int;
      data[index] := color;
      return Ok(());
    }

    /** `Canvas::width`: fixed at `new`, as the field is immutable. */
    function Width(): (w: U16)
      reads this
      ensures w == Model().width
    {
      width
    }

    /** `Canvas::height`: fixed at `new`, as the field is immutable. */
    function Height(): (h: U16)
      reads this
      ensures h == Model().height
    {
      height
    }
  }

  /**
   * `CanvasPixelIter`: walks the canvas row by row. `x` and `y` are the
   * next cell to yield.
   */
  class CanvasPixelIter {
    const canvas: Canvas
    var x: U16
    var y: U16

    ghost predicate Valid()
      reads this, canvas
    {
      && canvas.Valid()
      && y <= canvas.height
      && (y < canvas.height && canvas.width > 0 ==> x < canvas.width)
      && (y == canvas.height || canvas.width == 0 ==> x == 0)
    }

    /** How many pixels have been yielded: the index of the next cell. */
    ghost function Position(): nat
      reads this, canvas
    {
      Index(canvas.width, x, y)
    }

    /** `CanvasPixelIter::new`: start at `(0, 0)`. */
    constructor (canvas: Canvas)
      requires canvas.Valid()
      ensures Valid() && this.canvas == canvas && Position() == 0
    {
      this.canvas := canvas;
      x := 0;
      y := 0;
    }

    /**
     * `Iterator::next`: the pixel at the current position of the row-major
     * order, then one step on; `None`, without moving, once every cell has
     * been yielded.
     */
    method Next() returns (p: Option<Pixel>)
      requires Valid()
      modifies this
      ensures Valid()
      ensures old(Position()) < canvas.width * canvas.height ==>
        && p == Some(RowMajor(canvas.Model())[old(Position())])
        && Position() == old(Position()) + 1
      ensures old(Position()) >= canvas.width * canvas.height ==>
        p == None && x == old(x) && y == old(y)
    {
      if y >= canvas.height {
        IndexValue(canvas.width, x, y);
        return None;
      }
      var color := canvas.GetPixel(x, y);
      if color.None? {
        IndexValue(canvas.width, x, y);
        return None;
      }
      ghost var g := canvas.Model();
      RowMajorCell(g, x, y);
      p := Some(Pixel(x, y, color.value));
      if x + 1 >= canvas.width {
        IndexNextRow(canvas.width, x, y);
        x := 0;
        y := y + 1;
      } else {
        IndexNextColumn(canvas.width, x, y);
        x := x + 1;
      }
    }

    /** The next position never passes the last cell. */
    lemma PositionInRange()
      requires Valid()
      ensures Position() <= canvas.width * canvas.height
    {
      if y < canvas.height && canvas.width > 0 {
        IndexInBounds(canvas.width, canvas.height, x, y);
      } else {
        IndexValue(canvas.width, x, y);
      }
    }

    /** `ExactSizeIterator::len`: the pixels still to come. */
    function Len(): (n: nat)
      requires Valid()
      reads this, canvas
      ensures n + Position() == canvas.width * canvas.height
    {
      PositionInRange();
      IndexValue(canvas.width, x, y);
      canvas.width as int * canvas.height as int - (y as int * canvas.width as int + x as int)
    }
  }

  /**
   * `collect` on the iterator: the rest of the row-major order, from the
   * next position to the last cell.
   */
  method Collect(it: CanvasPixelIter) returns (ps: seq<Pixel>)
    requires it.Valid()
    modifies it
    ensures it.Valid()
    ensures old(it.Position()) <= |it.canvas.Model().cells|
    ensures ps == RowMajor(it.canvas.Model())[old(it.Position())..]
  {
    ghost var g := it.canvas.Model();
    ghost var start := it.Position();
    it.PositionInRange();
    ps := [];
    while true
      invariant it.Valid() && it.canvas.Model() == g
      invariant start <= it.Position() <= |g.cells|
      invariant ps == RowMajor(g)[start..it.Position()]
      decreases |g.cells| - it.Position()
    {
      ghost var before := it.Position();
      var p := it.Next();
      if p.None? {
        return;
      }
      it.PositionInRange();
      ps := ps + [p.value];
      assert RowMajor(g)[start..it.Position()] == RowMajor(g)[start..before] + [RowMajor(g)[before]];
    }
  }

  /** The grid of the iterator test: red, green and blue set, one white cell left. */
  ghost function ExampleGrid(): (g: Grid)
    ensures g.Valid()
  {
    Set(Set(Set(NewGrid(2, 2), 0, 0, Red), 1, 0, Green), 0, 1, Blue)
  }

  lemma ExampleGridCells()
    ensures Get(ExampleGrid(), 0, 0) == Some(Red) && Get(ExampleGrid(), 1, 0) == Some(Green)
    ensures Get(ExampleGrid(), 0, 1) == Some(Blue) && Get(ExampleGrid(), 1, 1) == Some(White)
  {
    var g0 := NewGrid(2, 2);
    var g1 := Set(g0, 0, 0, Red);
    var g2 := Set(g1, 1, 0, Green);
    GetSet(g2, 0, 1, Blue, 0, 0);
    GetSet(g2, 0, 1, Blue, 1, 0);
    GetSet(g2, 0, 1, Blue, 0, 1);
    GetSet(g2, 0, 1, Blue, 1, 1);
    GetSet(g1, 1, 0, Green, 0, 0);
    GetSet(g1, 1, 0, Green, 1, 0);
    GetSet(g1, 1, 0, Green, 1, 1);
    GetSet(g0, 0, 0, Red, 0, 0);
    GetSet(g0, 0, 0, Red, 1, 1);
  }

  /** The iterator test's expectation: the four pixels in row-major order. */
  lemma ExampleRowMajor()
    ensures RowMajor(ExampleGrid()) == [Pixel(0, 0, Red), Pixel(1, 0, Green), Pixel(0, 1, Blue), Pixel(1, 1, White)]
  {
    var g := ExampleGrid();
    ExampleGridCells();
    RowMajorCell(g, 0, 0);
    RowMajorCell(g, 1, 0);
    RowMajorCell(g, 0, 1);
    RowMajorCell(g, 1, 1);
  }

  /** The iterator test of `canvas/mod.rs`, on the `Canvas` class. */
  method PixelIterExample() returns (pixels: seq<Pixel>)
    ensures pixels == [Pixel(0, 0, Red), Pixel(1, 0, Green), Pixel(0, 1, Blue), Pixel(1, 1, White)]
  {
    var canvas := new Canvas(2, 2);
    var r0 := canvas.SetPixel(0, 0, Red);
    var r1 := canvas.SetPixel(1, 0, Green);
    var r2 := canvas.SetPixel(0, 1, Blue);
    assert canvas.Model() == ExampleGrid();
    var it := new CanvasPixelIter(canvas);
    pixels := Collect(it);
    ExampleRowMajor();
  }
}
