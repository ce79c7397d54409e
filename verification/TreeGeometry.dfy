/**
 Places on the canvas: percentages for columns and rows, rounded to two decimals. Numbers are exact reals.
 */
module TreeGeometry {
  datatype Position = Position(x: real, y: real)

  const COLUMN_PITCH := 14.0
  const ROW_PITCH := 13.0

  function Least(a: real, b: real): real {
    if a <= b then a else b
  }

  /** `Math.round(v * 100) / 100` without floating point */
  function Rounded(v: real): real {
    (100.0 * v + 0.5).Floor as real / 100.0
  }

  function ColumnPitch(maxLevel: nat): real {
    if maxLevel > 0 then Least(COLUMN_PITCH, 84.0 / maxLevel as real) else 0.0
  }

  function RowPitch(maxRows: nat): real {
    if maxRows > 1 then Least(ROW_PITCH, 80.0 / (maxRows - 1) as real) else 0.0
  }

  function X(level: nat, maxLevel: nat): real {
    if maxLevel > 0 then 4.0 + level as real * ColumnPitch(maxLevel) else 38.0
  }

  /** The top of a column of that many rows */
  function Top(rows: nat, maxRows: nat): real {
    8.0 + ((maxRows - 1) as real * RowPitch(maxRows) - (rows - 1) as real * RowPitch(maxRows)) / 2.0
  }

  function Y(row: nat, rows: nat, maxRows: nat): real {
    Top(rows, maxRows) + row as real * RowPitch(maxRows)
  }

  lemma FloorBetween(v: real, lo: int, hi: int)
    requires lo as real <= v <= hi as real + 0.5
    ensures lo <= v.Floor <= hi
  {
  }

  lemma RoundedBetween(v: real, lo: int, hi: int)
    requires lo as real <= v <= hi as real
    ensures lo as real <= Rounded(v) <= hi as real
  {
    FloorBetween(100.0 * v + 0.5, 100 * lo, 100 * hi);
  }

  lemma FloorSeparates(a: real, b: real)
    requires b - a >= 1.0
    ensures a.Floor < b.Floor
  {
  }

  /** Values a hundredth apart stay apart. */
  lemma RoundedSeparates(a: real, b: real)
    requires b - a >= 0.01
    ensures Rounded(a) < Rounded(b)
  {
    FloorSeparates(100.0 * a + 0.5, 100.0 * b + 0.5);
  }

  lemma Scales(a: real, b: real, c: real)
    requires a <= b && c >= 0.0
    ensures a * c <= b * c
  {
    assert (b - a) * c >= 0.0;
  }

  lemma ScalesStrictly(a: real, b: real, c: real)
    requires a < b && c > 0.0
    ensures a * c < b * c
  {
    assert (b - a) * c > 0.0;
  }

  lemma DividesBack(total: real, n: real)
    requires n > 0.0
    ensures (total / n) * n == total
  {
  }

  lemma AtLeast(total: real, n: real, bound: real)
    requires n > 0.0 && total >= bound * n
    ensures total / n >= bound
  {
    DividesBack(total, n);
    if total / n < bound {
      ScalesStrictly(total / n, bound, n);
    }
  }

  /** A pitch capped at its share of the total: k steps of n fit, and steps are wide enough to survive rounding. */
  lemma Share(total: real, n: nat, cap: real, k: nat)
    requires n >= 1 && total > 0.0 && cap >= 0.01 && k <= n
    ensures 0.0 <= k as real * Least(cap, total / n as real) <= total
    ensures Least(cap, total / n as real) >= 0.0
    ensures 100.0 * total >= n as real ==> Least(cap, total / n as real) >= 0.01
  {
    var share := total / n as real;
    assert share >= 0.0 by { AtLeast(total, n as real, 0.0); }
    assert 100.0 * total >= n as real ==> share >= 0.01 by {
      if 100.0 * total >= n as real {
        AtLeast(total, n as real, 0.01);
      }
    }
    assert share * n as real == total by { DividesBack(total, n as real); }
    StepsFit(total, n as real, share, Least(cap, share), k as real);
  }

  lemma StepsFit(total: real, n: real, share: real, pitch: real, k: real)
    requires 0.0 <= k <= n && 0.0 <= pitch <= share && share * n == total
    ensures 0.0 <= k * pitch <= total
  {
    assert 0.0 <= k * pitch by { Scales(0.0, k, pitch); }
    var all := n * pitch;
    assert k * pitch <= all by { Scales(k, n, pitch); }
    assert all <= total by {
      Scales(pitch, share, n);
      assert all == pitch * n;
    }
  }

  lemma XFits(level: nat, maxLevel: nat)
    requires level <= maxLevel
    ensures 4.0 <= X(level, maxLevel) <= 88.0
  {
    if maxLevel > 0 {
      Share(84.0, maxLevel, COLUMN_PITCH, level);
    }
  }

  lemma Apart(a: nat, b: nat, pitch: real)
    requires a < b && pitch >= 0.01
    ensures b as real * pitch - a as real * pitch >= 0.01
  {
    Scales(1.0, (b - a) as real, pitch);
    assert b as real * pitch - a as real * pitch == (b - a) as real * pitch;
  }

  lemma XSeparates(a: nat, b: nat, maxLevel: nat)
    requires a < b <= maxLevel <= 8400
    ensures X(b, maxLevel) - X(a, maxLevel) >= 0.01
  {
    Share(84.0, maxLevel, COLUMN_PITCH, a);
    Apart(a, b, ColumnPitch(maxLevel));
  }

  lemma Middle(all: real, column: real, row: real)
    requires 0.0 <= row <= column <= all <= 80.0
    ensures 8.0 <= 8.0 + (all - column) / 2.0 + row <= 88.0
  {
  }

  lemma RowPitchFits(maxRows: nat, k: nat)
    requires k < maxRows
    ensures RowPitch(maxRows) >= 0.0 && 0.0 <= k as real * RowPitch(maxRows) <= 80.0
    ensures 1 < maxRows <= 8001 ==> RowPitch(maxRows) >= 0.01
  {
    if maxRows > 1 {
      Share(80.0, maxRows - 1, ROW_PITCH, k);
    }
  }

  lemma YFits(row: nat, rows: nat, maxRows: nat)
    requires row < rows <= maxRows
    ensures 8.0 <= Y(row, rows, maxRows) <= 88.0
  {
    hide RowPitch;
    var pitch := RowPitch(maxRows);
    RowPitchFits(maxRows, maxRows - 1);
    RowPitchFits(maxRows, rows - 1);
    RowPitchFits(maxRows, row);
    var all, column, height := (maxRows - 1) as real * pitch, (rows - 1) as real * pitch, row as real * pitch;
    assert height <= column by { Scales(row as real, (rows - 1) as real, pitch); }
    assert column <= all by { Scales((rows - 1) as real, (maxRows - 1) as real, pitch); }
    Middle(all, column, height);
  }

  lemma YSeparates(a: nat, b: nat, rows: nat, maxRows: nat)
    requires a < b < rows <= maxRows <= 8001
    ensures Y(b, rows, maxRows) - Y(a, rows, maxRows) >= 0.01
  {
    hide RowPitch, Top;
    RowPitchFits(maxRows, 0);
    Apart(a, b, RowPitch(maxRows));
  }

  // ---------------------------------------------------------------------------
  // Where columns and rows are
  // ---------------------------------------------------------------------------

  /** Up to six levels behind the first stand 14 apart from 4 on; more of them share the 84 up to 88. */
  lemma XExactly(level: nat, maxLevel: nat)
    ensures maxLevel == 0 ==> X(level, maxLevel) == 38.0
    ensures 1 <= maxLevel <= 6 ==> X(level, maxLevel) == 4.0 + 14.0 * level as real
    ensures maxLevel > 6 ==> (X(level, maxLevel) - 4.0) * maxLevel as real == 84.0 * level as real
  {
    if maxLevel > 0 {
      var n, pitch := maxLevel as real, 84.0 / maxLevel as real;
      assert pitch * n == 84.0 by { DividesBack(84.0, n); }
      if maxLevel <= 6 {
        AtLeast(84.0, n, 14.0);
      } else {
        assert pitch < 14.0 by {
          if pitch >= 14.0 {
            Scales(14.0, pitch, n);
          }
        }
        assert level as real * pitch * n == level as real * (pitch * n);
      }
    }
  }

  /** The middle of every column is the middle of the longest one. */
  lemma ColumnsAreCentred(rows: nat, maxRows: nat)
    requires 1 <= rows <= maxRows
    ensures Y(0, rows, maxRows) + Y(rows - 1, rows, maxRows) == Y(0, maxRows, maxRows) + Y(maxRows - 1, maxRows, maxRows)
  {
    hide RowPitch;
    var pitch := RowPitch(maxRows);
    var all, column := (maxRows - 1) as real * pitch, (rows - 1) as real * pitch;
    assert Top(rows, maxRows) == 8.0 + (all - column) / 2.0;
    assert Top(maxRows, maxRows) == 8.0;
  }

  /** Up to seven rows stand 13 apart; more of them share the 80 from 8 to 88. The longest column begins at 8. */
  lemma YExactly(row: nat, rows: nat, maxRows: nat)
    requires 1 <= rows <= maxRows
    ensures Y(0, maxRows, maxRows) == 8.0
    ensures maxRows == 1 ==> Y(row, rows, maxRows) == 8.0
    ensures 2 <= maxRows <= 7 ==> Y(row, rows, maxRows) - Y(0, rows, maxRows) == 13.0 * row as real
    ensures maxRows > 7 ==> (Y(row, rows, maxRows) - Y(0, rows, maxRows)) * (maxRows - 1) as real == 80.0 * row as real
  {
    if maxRows > 1 {
      var n, pitch := (maxRows - 1) as real, 80.0 / (maxRows - 1) as real;
      assert pitch * n == 80.0 by { DividesBack(80.0, n); }
      if maxRows <= 7 {
        AtLeast(80.0, n, 13.0);
      } else {
        assert pitch < 13.0 by {
          if pitch >= 13.0 {
            Scales(13.0, pitch, n);
          }
        }
        assert row as real * pitch * n == row as real * (pitch * n);
      }
      RowsFromTheTop(row, rows, maxRows);
    }
    TopOfTheLongest(maxRows);
  }

  lemma RowsFromTheTop(row: nat, rows: nat, maxRows: nat)
    ensures Y(row, rows, maxRows) - Y(0, rows, maxRows) == row as real * RowPitch(maxRows)
  {
    hide RowPitch, Top;
  }

  lemma TopOfTheLongest(maxRows: nat)
    ensures Y(0, maxRows, maxRows) == 8.0
  {
    hide RowPitch;
  }

  /** The number of hundredths nearest to v; the greater one where two are */
  lemma RoundedIsNearest(v: real)
    ensures (100.0 * Rounded(v)).Floor as real == 100.0 * Rounded(v)
    ensures -0.005 < Rounded(v) - v <= 0.005
  {
    var n := (100.0 * v + 0.5).Floor;
    assert 100.0 * Rounded(v) == n as real;
  }
}
