/** `make_coordinates`: turn one side's averaged (slope, intercept) into a lane
    line running from the bottom row of the frame up to three fifths of its
    height, solving `x = (y - b) / m` for each end and truncating with `int()`. */
module Reconstruction {
  import opened Options
  import opened Truncation
  import opened Fitting

  /** One reconstructed lane boundary: two endpoints in pixel coordinates. */
  datatype LaneLine = LaneLine(x1: int, y1: int, x2: int, y2: int)

  /** `int(height * (3/5))`: the row at which every lane line stops. It lies in
      the frame and is the largest row at or above three fifths of the height. */
  function UpperRow(height: nat): (y: int)
    ensures 0 <= y <= height
    ensures 5 * y <= 3 * height < 5 * y + 5
  {
    Trunc(height as real * (3.0 / 5.0))
  }

  /** The point `(x, y)` is the line `f`'s crossing of row `y` up to truncation:
      `x` is less than one pixel from the exact column `(y - b) / m`, no farther
      from column zero than it, and so the line misses `(x, y)` vertically by
      less than one step of its slope. */
  ghost predicate NearLine(f: Fit, x: int, y: int)
    requires f.m != 0.0
  {
    var exact := (y as real - f.b) / f.m;
    && Abs(x as real - exact) < 1.0
    && Abs(x as real) <= Abs(exact)
    && Abs(f.m * x as real + f.b - y as real) < Abs(f.m)
  }

  /** `int((y - b) / m)`: the column where the line `f` crosses row `y`. */
  function ColumnAt(f: Fit, y: int): (x: int)
    requires f.m != 0.0
    ensures NearLine(f, x, y)
  {
    TruncatedColumnNearLine(f, y);
    Trunc((y as real - f.b) / f.m)
  }

  /** The truncated exact column meets all three parts of `NearLine`. */
  lemma TruncatedColumnNearLine(f: Fit, y: int)
    requires f.m != 0.0
    ensures NearLine(f, Trunc((y as real - f.b) / f.m), y)
  {
    var exact := (y as real - f.b) / f.m;
    var x := Trunc(exact);
    TruncNear(exact);
    VerticalMiss(f, x as real, exact, y as real);
    NearLineIntro(f, x, y);
  }

  /** `NearLine` from its three parts, each given separately. */
  lemma NearLineIntro(f: Fit, x: int, y: int)
    requires f.m != 0.0
    requires Abs(x as real - (y as real - f.b) / f.m) < 1.0
    requires Abs(x as real) <= Abs((y as real - f.b) / f.m)
    requires Abs(f.m * x as real + f.b - y as real) < Abs(f.m)
    ensures NearLine(f, x, y)
  {
  }

  /** Missing the exact column by `d` misses the line by `m * d` vertically. */
  lemma VerticalMiss(f: Fit, x: real, exact: real, y: real)
    requires f.m != 0.0
    requires exact == (y - f.b) / f.m
    requires Abs(x - exact) < 1.0
    ensures Abs(f.m * x + f.b - y) < Abs(f.m)
  {
    assert f.m * exact == y - f.b;
    var d := x - exact;
    assert f.m * x + f.b - y == f.m * d;
    if f.m > 0.0 {
      if d >= 0.0 {
        assert f.m * d < f.m * 1.0;
      } else {
        assert f.m * (-d) < f.m * 1.0;
      }
    } else {
      if d >= 0.0 {
        assert (-f.m) * d < (-f.m) * 1.0;
      } else {
        assert (-f.m) * (-d) < (-f.m) * 1.0;
      }
    }
  }

  /** `make_coordinates(image, line_parameters)` for a frame of `height` rows.
      `params` is `None` where numpy handed over a scalar NaN (an empty group),
      which cannot be unpacked into slope and intercept; a zero slope makes the
      division produce an infinity or NaN that `int()` rejects. Both raise, and
      both are `None` here. */
  function MakeCoordinates(height: nat, params: Option<Fit>): (line: Option<LaneLine>)
    ensures line.Some? <==> params.Some? && params.value.m != 0.0
    ensures line.Some? ==> line.value.y1 == height && line.value.y2 == UpperRow(height)
    ensures line.Some? ==> NearLine(params.value, line.value.x1, line.value.y1)
    ensures line.Some? ==> NearLine(params.value, line.value.x2, line.value.y2)
  {
    match params
    case None => None
    case Some(f) =>
      if f.m == 0.0 then None
      else
        var y1 := height;
        var y2 := UpperRow(height);
        Some(LaneLine(ColumnAt(f, y1), y1, ColumnAt(f, y2), y2))
  }

  /** The exact column of a line moves against the row for a negative slope and
      with it for a positive one. */
  lemma ExactColumnMonotone(f: Fit, lo: int, hi: int)
    requires f.m != 0.0
    requires lo <= hi
    ensures f.m < 0.0 ==> (hi as real - f.b) / f.m <= (lo as real - f.b) / f.m
    ensures f.m > 0.0 ==> (lo as real - f.b) / f.m <= (hi as real - f.b) / f.m
  {
    var a, c := (hi as real - f.b) / f.m, (lo as real - f.b) / f.m;
    assert f.m * a == hi as real - f.b;
    assert f.m * c == lo as real - f.b;
    assert f.m * (a - c) == (hi - lo) as real;
    if f.m < 0.0 && a > c {
      assert f.m * (a - c) < 0.0;
    }
    if f.m > 0.0 && a < c {
      assert f.m * (c - a) > 0.0;
    }
  }

  /** A reconstructed line leans the way its slope says: with a negative slope
      the top end is at or right of the bottom end, with a positive slope at or
      left of it. */
  lemma LaneLineLeans(height: nat, f: Fit)
    requires f.m != 0.0
    ensures var line := MakeCoordinates(height, Some(f)).value;
      && (f.m < 0.0 ==> line.x1 <= line.x2)
      && (f.m > 0.0 ==> line.x1 >= line.x2)
  {
    var y2 := UpperRow(height);
    ExactColumnMonotone(f, y2, height);
    var bottom, top := (height as real - f.b) / f.m, (y2 as real - f.b) / f.m;
    if f.m < 0.0 {
      TruncMonotone(bottom, top);
    } else {
      TruncMonotone(top, bottom);
    }
  }
}
