/**
 * `canvas/diff.rs`: the pixels that differ between two canvases, found by
 * walking the first canvas row by row and reporting the second canvas's
 * colour wherever the two disagree and the second has that cell at all.
 *
 * `Changes` is the specification of the walk; `Diff` is the nested loop;
 * the lemmas say what the list means: exactly the differing cells, in
 * strict row-major order, and, for canvases of one size, the edits that
 * turn the first into the second.
 */
module CanvasDiff {
  import opened Wrappers
  import opened Octets
  import opened Events
  import opened Canvas

  /** `CanvasDiff`: the changed pixels in the order they were found. */
  datatype CanvasDiff = CanvasDiff(changedPixels: seq<Pixel>)
  {
    /** `CanvasDiff::is_empty`. */
    predicate IsEmpty()
      ensures IsEmpty() <==> |changedPixels| == 0
    {
      changedPixels == []
    }

    /** `CanvasDiff::changed_pixels`: the pixels, with their exact count. */
    function ChangedPixels(): (ps: seq<Pixel>)
      ensures ps == changedPixels
    {
      changedPixels
    }
  }

  /** `CanvasDiff::new`: no changes. */
  function NewDiff(): (d: CanvasDiff)
    ensures d.IsEmpty()
  {
    CanvasDiff([])
  }

  /**
   * Whether `diff` reports cell `(x, y)`: the two canvases read differently
   * there and `b` has the cell.
   */
  predicate Changed(a: Grid, b: Grid, x: U16, y: U16)
    requires a.Valid() && b.Valid()
  {
    Get(a, x, y) != Get(b, x, y) && Get(b, x, y).Some?
  }

  /** The pixels reported for the first `n` cells of row `y`. */
  function RowChanges(a: Grid, b: Grid, y: U16, n: nat): seq<Pixel>
    requires a.Valid() && b.Valid() && n <= a.width
  {
    if n == 0 then []
    else
      var x := n - 1;
      RowChanges(a, b, y, x) + if Changed(a, b, x, y) then [Pixel(x, y, Get(b, x, y).value)] else []
  }

  /** The pixels reported for the first `m` rows of `a`. */
  function Changes(a: Grid, b: Grid, m: nat): seq<Pixel>
    requires a.Valid() && b.Valid() && m <= a.height
  {
    if m == 0 then [] else Changes(a, b, m - 1) + RowChanges(a, b, m - 1, a.width)
  }

  /** `Canvas::diff`: every row of `self` in turn, every column of that row in turn. */
  method Diff(canvas: Canvas, other: Canvas) returns (d: CanvasDiff)
    requires canvas.Valid() && other.Valid()
    ensures d.changedPixels == Changes(canvas.Model(), other.Model(), canvas.height)
  {
    ghost var a, b := canvas.Model(), other.Model();
    var changed: seq<Pixel> := [];
    var y := 0;
    while y < canvas.height
      invariant y <= canvas.height
      invariant changed == Changes(a, b, y)
    {
      var x := 0;
      while x < canvas.width
        invariant x <= canvas.width
        invariant changed == Changes(a, b, y) + RowChanges(a, b, y, x)
      {
        var colorSelf := canvas.GetPixel(x, y);
        var colorOther := other.GetPixel(x, y);
        if colorSelf != colorOther && colorOther.Some? {
          changed := changed + [Pixel(x, y, colorOther.value)];
        }
        x := x + 1;
      }
      y := y + 1;
    }
    return CanvasDiff(changed);
  }

  // ---------------------------------------------------------------------
  // What the list of changes means.

  /** The pixels of a row's changes lie on that row, left of `n`, with `b`'s colour. */
  lemma {:induction false} RowChangesMember(a: Grid, b: Grid, y: U16, n: nat, p: Pixel)
    requires a.Valid() && b.Valid() && n <= a.width
    ensures p in RowChanges(a, b, y, n) <==>
      p.y == y && p.x < n && Changed(a, b, p.x, p.y) && p.color == Get(b, p.x, p.y).value
  {
    if n > 0 {
      RowChangesMember(a, b, y, n - 1, p);
    }
  }

  /** The pixels of the first `m` rows' changes are the changed cells of those rows. */
  lemma {:induction false} ChangesMember(a: Grid, b: Grid, m: nat, p: Pixel)
    requires a.Valid() && b.Valid() && m <= a.height
    ensures p in Changes(a, b, m) <==>
      p.y < m && p.x < a.width && Changed(a, b, p.x, p.y) && p.color == Get(b, p.x, p.y).value
  {
    if m > 0 {
      ChangesMember(a, b, m - 1, p);
      RowChangesMember(a, b, m - 1, a.width, p);
    }
  }

  /**
   * `diff` reports exactly the cells of `a` where `b` has a different
   * colour, each with `b`'s colour; cells only `b` has are never reported.
   */
  lemma DiffMember(a: Grid, b: Grid, p: Pixel)
    requires a.Valid() && b.Valid()
    ensures p in Changes(a, b, a.height) <==>
      a.InBounds(p.x, p.y) && b.InBounds(p.x, p.y)
      && Get(a, p.x, p.y) != Get(b, p.x, p.y) && p.color == Get(b, p.x, p.y).value
  {
    ChangesMember(a, b, a.height, p);
  }

  /** `p` comes strictly before `q` in row-major order. */
  predicate Before(p: Pixel, q: Pixel)
  {
    p.y < q.y || (p.y == q.y && p.x < q.x)
  }

  /** Strictly increasing in row-major order, hence without repeated cells. */
  predicate RowMajorSorted(ps: seq<Pixel>)
  {
    forall i, j :: 0 <= i < j < |ps| ==> Before(ps[i], ps[j])
  }

  lemma {:induction false} RowChangesSorted(a: Grid, b: Grid, y: U16, n: nat)
    requires a.Valid() && b.Valid() && n <= a.width
    ensures RowMajorSorted(RowChanges(a, b, y, n))
  {
    if n > 0 {
      RowChangesSorted(a, b, y, n - 1);
      var ps := RowChanges(a, b, y, n - 1);
      forall i | 0 <= i < |ps|
        ensures ps[i].y == y && ps[i].x < n - 1
      {
        RowChangesMember(a, b, y, n - 1, ps[i]);
      }
    }
  }

  lemma {:induction false} ChangesSorted(a: Grid, b: Grid, m: nat)
    requires a.Valid() && b.Valid() && m <= a.height
    ensures RowMajorSorted(Changes(a, b, m))
  {
    if m > 0 {
      ChangesSorted(a, b, m - 1);
      RowChangesSorted(a, b, m - 1, a.width);
      var ps, qs := Changes(a, b, m - 1), RowChanges(a, b, m - 1, a.width);
      forall i | 0 <= i < |ps|
        ensures ps[i].y < m - 1
      {
        ChangesMember(a, b, m - 1, ps[i]);
      }
      forall j | 0 <= j < |qs|
        ensures qs[j].y == m - 1
      {
        RowChangesMember(a, b, m - 1, a.width, qs[j]);
      }
    }
  }

  /** The changes come in the order of the walk: rows top to bottom, each left to right. */
  lemma DiffSorted(a: Grid, b: Grid)
    requires a.Valid() && b.Valid()
    ensures RowMajorSorted(Changes(a, b, a.height))
  {
    ChangesSorted(a, b, a.height);
  }

  lemma {:induction false} RowChangesSize(a: Grid, b: Grid, y: U16, n: nat)
    requires a.Valid() && b.Valid() && n <= a.width
    ensures |RowChanges(a, b, y, n)| <= n
  {
    if n > 0 {
      RowChangesSize(a, b, y, n - 1);
    }
  }

  lemma {:induction false} ChangesSize(a: Grid, b: Grid, m: nat)
    requires a.Valid() && b.Valid() && m <= a.height
    ensures |Changes(a, b, m)| <= m * a.width
  {
    if m > 0 {
      ChangesSize(a, b, m - 1);
      RowChangesSize(a, b, m - 1, a.width);
      MulPred(m, a.width);
    }
  }

  /** At most one change per cell of `a`. */
  lemma DiffSize(a: Grid, b: Grid)
    requires a.Valid() && b.Valid()
    ensures |Changes(a, b, a.height)| <= |a.cells|
  {
    ChangesSize(a, b, a.height);
  }

  /** A canvas has no changes against itself. */
  lemma SelfChangesEmpty(a: Grid)
    requires a.Valid()
    ensures Changes(a, a, a.height) == []
  {
    var ps := Changes(a, a, a.height);
    if ps != [] {
      ChangesMember(a, a, a.height, ps[0]);
      assert false;
    }
  }

  // ---------------------------------------------------------------------
  // Replaying the changes.

  /** `set_pixel` for every pixel in turn, first to last. */
  function ApplyAll(g: Grid, ps: seq<Pixel>): (r: Grid)
    requires g.Valid()
    ensures r.Valid() && r.width == g.width && r.height == g.height
  {
    if ps == [] then g
    else
      var p := ps[|ps| - 1];
      Set(ApplyAll(g, ps[..|ps| - 1]), p.x, p.y, p.color)
  }

  lemma ApplyAllSnoc(g: Grid, ps: seq<Pixel>, p: Pixel)
    requires g.Valid()
    ensures ApplyAll(g, ps + [p]) == Set(ApplyAll(g, ps), p.x, p.y, p.color)
  {
    assert (ps + [p])[..|ps|] == ps;
  }

  /** `a` with its first `y` rows, and the first `n` cells of row `y`, taken from `b`. */
  ghost predicate CopiedUpTo(a: Grid, b: Grid, g: Grid, y: nat, n: nat)
    requires a.Valid() && b.Valid() && g.Valid()
  {
    forall x': U16, y': U16 | a.InBounds(x', y') ::
      Get(g, x', y') == if y' < y || (y' == y && x' < n) then Get(b, x', y') else Get(a, x', y')
  }

  lemma {:induction false} ApplyRowChanges(a: Grid, b: Grid, y: U16, n: nat)
    requires a.Valid() && b.Valid() && a.width == b.width && a.height == b.height
    requires y < a.height && n <= a.width
    ensures CopiedUpTo(a, b, ApplyAll(a, Changes(a, b, y) + RowChanges(a, b, y, n)), y, n)
  {
    if n == 0 {
      assert Changes(a, b, y) + RowChanges(a, b, y, n) == Changes(a, b, y);
      if y > 0 {
        ApplyRowChanges(a, b, y - 1, a.width);
        NextRowCopied(a, b, Changes(a, b, y), y - 1);
      }
    } else {
      var x := n - 1;
      ApplyRowChanges(a, b, y, x);
      var ps := Changes(a, b, y) + RowChanges(a, b, y, x);
      if Changed(a, b, x, y) {
        var p := Pixel(x, y, Get(b, x, y).value);
        assert Changes(a, b, y) + RowChanges(a, b, y, n) == ps + [p];
        ApplyAllSnoc(a, ps, p);
        ChangedCellCopied(a, b, ApplyAll(a, ps), x, y);
      } else {
        assert Changes(a, b, y) + RowChanges(a, b, y, n) == ps;
        UnchangedCellCopied(a, b, ApplyAll(a, ps), x, y);
      }
    }
  }

  /** Copying every row up to `y` is copying row `y + 1` up to its first cell. */
  lemma NextRowCopied(a: Grid, b: Grid, ps: seq<Pixel>, y: nat)
    requires a.Valid() && b.Valid() && a.width == b.width && a.height == b.height
    requires y + 1 < a.height && ps == Changes(a, b, y + 1)
    requires CopiedUpTo(a, b, ApplyAll(a, Changes(a, b, y) + RowChanges(a, b, y, a.width)), y, a.width)
    ensures CopiedUpTo(a, b, ApplyAll(a, ps), y + 1, 0)
  {
  }

  /** Setting a changed cell to its colour in `b` copies one more cell. */
  lemma ChangedCellCopied(a: Grid, b: Grid, g: Grid, x: U16, y: U16)
    requires a.Valid() && b.Valid() && g.Valid() && a.width == b.width && a.height == b.height
    requires g.width == a.width && g.height == a.height && a.InBounds(x, y)
    requires CopiedUpTo(a, b, g, y, x) && Changed(a, b, x, y)
    ensures CopiedUpTo(a, b, Set(g, x, y, Get(b, x, y).value), y, x + 1)
  {
    var c := Get(b, x, y).value;
    forall x': U16, y': U16 | a.InBounds(x', y')
      ensures Get(Set(g, x, y, c), x', y') == if x' == x && y' == y then Some(c) else Get(g, x', y')
    {
      GetSet(g, x, y, c, x', y');
    }
  }

  /** A cell the diff leaves out is already the same in `a` and `b`. */
  lemma UnchangedCellCopied(a: Grid, b: Grid, g: Grid, x: U16, y: U16)
    requires a.Valid() && b.Valid() && g.Valid() && a.width == b.width && a.height == b.height
    requires g.width == a.width && g.height == a.height && a.InBounds(x, y)
    requires CopiedUpTo(a, b, g, y, x) && !Changed(a, b, x, y)
    ensures CopiedUpTo(a, b, g, y, x + 1)
  {
  }

  /**
   * For canvases of one size, replaying the changes on `a` with `set_pixel`
   * gives `b`: the diff is complete.
   */
  lemma ApplyDiff(a: Grid, b: Grid)
    requires a.Valid() && b.Valid() && a.width == b.width && a.height == b.height
    ensures ApplyAll(a, Changes(a, b, a.height)) == b
  {
    var g := ApplyAll(a, Changes(a, b, a.height));
    if a.height > 0 {
      ApplyRowChanges(a, b, a.height - 1, a.width);
      assert Changes(a, b, a.height) == Changes(a, b, a.height - 1) + RowChanges(a, b, a.height - 1, a.width);
      assert CopiedUpTo(a, b, g, a.height - 1, a.width);
    }
    forall x: U16, y: U16
      ensures Get(g, x, y) == Get(b, x, y)
    {
      if a.InBounds(x, y) {
        assert y < a.height - 1 || (y == a.height - 1 && x < a.width);
      }
    }
    GridExtensionality(g, b);
  }

  /** For canvases of one size, the diff is empty exactly when they are equal. */
  lemma DiffEmptyIffEqual(a: Grid, b: Grid)
    requires a.Valid() && b.Valid() && a.width == b.width && a.height == b.height
    ensures Changes(a, b, a.height) == [] <==> a == b
  {
    if a == b {
      SelfChangesEmpty(a);
    }
    if Changes(a, b, a.height) == [] {
      ApplyDiff(a, b);
    }
  }
}
