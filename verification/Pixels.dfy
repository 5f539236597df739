/** Rectangles as the sets of their pixels. */
module Pixels {
  import opened Arithmetic

  /** The columns from `x0` and the rows from `y0`, up to `x1` and `y1` exclusively. */
  datatype Rect = Rect(x0: int, y0: int, x1: int, y1: int) {
    predicate Ordered() {
      x0 <= x1 && y0 <= y1
    }

    ghost function Cells(): set<(int, int)> {
      set x, y | x0 <= x < x1 && y0 <= y < y1 :: (x, y)
    }
  }

  function Larger(a: int, b: int): int {
    if a < b then b else a
  }

  function Smaller(a: int, b: int): int {
    if a < b then a else b
  }

  lemma {:induction false} ColumnCount(x: int, y0: int, y1: int)
    requires y0 <= y1
    ensures |Rect(x, y0, x + 1, y1).Cells()| == y1 - y0
    decreases y1 - y0
  {
    var cells := Rect(x, y0, x + 1, y1).Cells();
    if y0 == y1 {
      assert cells == {};
    } else {
      ColumnCount(x, y0, y1 - 1);
      assert cells == Rect(x, y0, x + 1, y1 - 1).Cells() + {(x, y1 - 1)};
    }
  }

  /** Width times height. */
  lemma {:induction false} CellCount(r: Rect)
    requires r.Ordered()
    ensures |r.Cells()| == (r.x1 - r.x0) * (r.y1 - r.y0)
    decreases r.x1 - r.x0
  {
    if r.x0 == r.x1 {
      assert r.Cells() == {};
    } else {
      var front, last := Rect(r.x0, r.y0, r.x1 - 1, r.y1), Rect(r.x1 - 1, r.y0, r.x1, r.y1);
      CellCount(front);
      ColumnCount(r.x1 - 1, r.y0, r.y1);
      assert r.Cells() == front.Cells() + last.Cells();
      assert front.Cells() * last.Cells() == {};
      Distribute(r.x1 - 1 - r.x0, 1, r.y1 - r.y0);
    }
  }

  function Meet(a: Rect, b: Rect): Rect {
    Rect(Larger(a.x0, b.x0), Larger(a.y0, b.y0), Smaller(a.x1, b.x1), Smaller(a.y1, b.y1))
  }

  lemma MeetCells(a: Rect, b: Rect)
    ensures a.Cells() * b.Cells() == Meet(a, b).Cells()
  {}

  /** Pixels in both, and in either. */
  lemma CommonCount(a: Rect, b: Rect)
    requires a.Ordered() && b.Ordered()
    ensures var m := Meet(a, b);
      |a.Cells() * b.Cells()| == if m.Ordered() then (m.x1 - m.x0) * (m.y1 - m.y0) else 0
    ensures |a.Cells() + b.Cells()| == |a.Cells()| + |b.Cells()| - |a.Cells() * b.Cells()|
  {
    MeetCells(a, b);
    if Meet(a, b).Ordered() {
      CellCount(Meet(a, b));
    } else {
      assert Meet(a, b).Cells() == {};
    }
  }
}
