/** The panel-grid detector of src/panels.cc: a row scan and a column scan for
    near-white divider lines, edge dividers synthesised at both ends, and the grid of
    panel rectangles between consecutive dividers, appended to the page in row-major
    order. */
module Panels {
  import opened Wrappers
  import opened Geometry
  import opened Page

  /** After a divider the scan skips this many rows (or columns). */
  const SkipAmount: nat := 100
  /** A sample at or above this value counts as white. */
  const BasicallyWhite: nat := 200
  /** Below this row no non-white sample is tolerated in a column divider. */
  const PointOfNoReturn: nat := 150
  /** Above the point of no return, up to UrgTolerance + 1 consecutive non-white
      samples are tolerated in a column divider. */
  const UrgTolerance: nat := 7

  datatype PanelError =
    | ImageTooSmall   // width or height at most SkipAmount
    | GridDegenerate  // fewer than two dividers on an axis

  // ---------------------------------------------------------------- rows

  predicate RowIsWhite(img: Raster, y: nat)
    requires img.Valid() && y < img.height
  {
    forall x :: 0 <= x < img.width ==> img.Pixel(x, y) >= BasicallyWhite
  }

  /** The row loop from row y on, with the dividers `ys` recorded so far: the leading
      0 is pushed when row y > SkipAmount is reached with nothing recorded, a white row
      is recorded, and the scan then resumes SkipAmount + 1 rows further down. */
  function RowScan(img: Raster, y: nat, ys: seq<nat>): seq<nat>
    requires img.Valid()
    decreases img.height - y
  {
    if y >= img.height then ys
    else
      var ys' := if |ys| == 0 && y > SkipAmount then [0] else ys;
      if RowIsWhite(img, y) then RowScan(img, y + SkipAmount + 1, ys' + [y])
      else RowScan(img, y + 1, ys')
  }

  /** The dividers the row loop finds from row y on, without the synthesised 0. */
  function RawRows(img: Raster, y: nat): seq<nat>
    requires img.Valid()
    decreases img.height - y
  {
    if y >= img.height then []
    else if RowIsWhite(img, y) then [y] + RawRows(img, y + SkipAmount + 1)
    else RawRows(img, y + 1)
  }

  /** The synthesised leading divider: present exactly when the scan reaches row (or
      column) SkipAmount + 1 of a long enough image with nothing recorded. */
  function Lead(raw: seq<nat>, dim: nat): seq<nat>
  {
    if dim > SkipAmount + 1 && (raw == [] || raw[0] > SkipAmount) then [0] else []
  }

  lemma RowScanStep(img: Raster, y: nat, ys: seq<nat>, white: bool)
    requires img.Valid() && y < img.height && white == RowIsWhite(img, y)
    ensures var ys' := if |ys| == 0 && y > SkipAmount then [0] else ys;
      RowScan(img, y, ys) ==
        if white then RowScan(img, y + SkipAmount + 1, ys' + [y]) else RowScan(img, y + 1, ys')
  {
  }

  method ScanRows(img: Raster) returns (ys: seq<nat>)
    requires img.Valid()
    ensures ys == RowScan(img, 0, [])
  {
    ys := [];
    ghost var target := RowScan(img, 0, []);
    var y: nat := 0;
    while y < img.height
      invariant RowScan(img, y, ys) == target
      decreases img.height - y
    {
      ghost var y0, ys0 := y, ys;
      var x: nat := 0;
      while x < img.width && img.Pixel(x, y) >= BasicallyWhite
        invariant x <= img.width
        invariant forall x' :: 0 <= x' < x ==> img.Pixel(x', y) >= BasicallyWhite
      {
        x := x + 1;
      }
      ghost var white := x == img.width;
      assert white == RowIsWhite(img, y);
      if |ys| == 0 && y > SkipAmount {
        ys := ys + [0];
      }
      if x == img.width {
        ys := ys + [y];
        y := y + SkipAmount;
      }
      y := y + 1;
      RowScanStep(img, y0, ys0, white);
      ghost var ys' := if |ys0| == 0 && y0 > SkipAmount then [0] else ys0;
      assert white ==> y == y0 + SkipAmount + 1 && ys == ys' + [y0];
      assert !white ==> y == y0 + 1 && ys == ys';
    }
  }

  // ------------------------------------------------------------- columns

  /** Where the scan of one column stopped: did it reach the bottom, and the value of
      the tolerance counter, which carries over to the next column. */
  datatype ColumnRun = ColumnRun(divider: bool, urg: nat)

  /** The inner loop over the rows of column x from row y on. */
  function ScanColumn(img: Raster, x: nat, y: nat, urg: nat): ColumnRun
    requires img.Valid() && x < img.width && y <= img.height
    decreases img.height - y
  {
    if y == img.height then ColumnRun(true, urg)
    else if img.Pixel(x, y) < BasicallyWhite then
      if y > PointOfNoReturn then ColumnRun(false, urg)
      else if urg > UrgTolerance then ColumnRun(false, urg + 1)
      else ScanColumn(img, x, y + 1, urg + 1)
    else ScanColumn(img, x, y + 1, 0)
  }

  /** The column loop from column x on, the counter at `urg`, with `xs` recorded so far. */
  function ColumnScan(img: Raster, x: nat, urg: nat, xs: seq<nat>): seq<nat>
    requires img.Valid()
    decreases img.width - x
  {
    if x >= img.width then xs
    else
      var run := ScanColumn(img, x, 0, urg);
      var xs' := if |xs| == 0 && x > SkipAmount then [0] else xs;
      if run.divider then ColumnScan(img, x + SkipAmount + 1, run.urg, xs' + [x])
      else ColumnScan(img, x + 1, run.urg, xs')
  }

  /** The dividers the column loop finds from column x on, without the synthesised 0. */
  function RawColumns(img: Raster, x: nat, urg: nat): seq<nat>
    requires img.Valid()
    decreases img.width - x
  {
    if x >= img.width then []
    else
      var run := ScanColumn(img, x, 0, urg);
      if run.divider then [x] + RawColumns(img, x + SkipAmount + 1, run.urg)
      else RawColumns(img, x + 1, run.urg)
  }

  lemma ColumnScanStep(img: Raster, x: nat, urg: nat, xs: seq<nat>, run: ColumnRun)
    requires img.Valid() && x < img.width && run == ScanColumn(img, x, 0, urg)
    ensures var xs' := if |xs| == 0 && x > SkipAmount then [0] else xs;
      ColumnScan(img, x, urg, xs) ==
        if run.divider then ColumnScan(img, x + SkipAmount + 1, run.urg, xs' + [x])
        else ColumnScan(img, x + 1, run.urg, xs')
  {
  }

  method ScanColumns(img: Raster) returns (xs: seq<nat>)
    requires img.Valid()
    ensures xs == ColumnScan(img, 0, 0, [])
  {
    var urgCounter: nat := 0;
    xs := [];
    ghost var target := ColumnScan(img, 0, 0, []);
    var x: nat := 0;
    while x < img.width
      invariant ColumnScan(img, x, urgCounter, xs) == target
      decreases img.width - x
    {
      ghost var x0, xs0 := x, xs;
      var y: nat := 0;
      ghost var urg0 := urgCounter;
      while y < img.height
        invariant y <= img.height
        invariant ScanColumn(img, x, y, urgCounter) == ScanColumn(img, x, 0, urg0)
        decreases img.height - y
      {
        if img.Pixel(x, y) < BasicallyWhite {
          if y > PointOfNoReturn {
            break;
          }
          var tooMany := urgCounter > UrgTolerance;
          urgCounter := urgCounter + 1;
          if tooMany {
            break;
          }
        } else {
          urgCounter := 0;
        }
        y := y + 1;
      }
      ghost var run := ColumnRun(y == img.height, urgCounter);
      assert run == ScanColumn(img, x, 0, urg0);
      if |xs| == 0 && x > SkipAmount {
        xs := xs + [0];
      }
      if y == img.height {
        xs := xs + [x];
        x := x + SkipAmount;
      }
      x := x + 1;
      ColumnScanStep(img, x0, urg0, xs0, run);
      ghost var xs' := if |xs0| == 0 && x0 > SkipAmount then [0] else xs0;
      assert run.divider ==> x == x0 + SkipAmount + 1 && xs == xs' + [x0];
      assert !run.divider ==> x == x0 + 1 && xs == xs';
    }
  }

  // ------------------------------------------------- scan properties: rows

  /** Dividers at least `gap` apart, in increasing order. */
  predicate Spaced(ds: seq<nat>, gap: nat) {
    forall k :: 0 <= k < |ds| - 1 ==> ds[k] + gap <= ds[k + 1]
  }

  /** Every divider lies in [lo, hi). */
  predicate Between(ds: seq<nat>, lo: nat, hi: nat) {
    forall k :: 0 <= k < |ds| ==> lo <= ds[k] < hi
  }

  /** Once something is recorded, the row loop only appends the white rows it finds. */
  lemma {:induction false} RowScanAfterFirst(img: Raster, y: nat, ys: seq<nat>)
    requires img.Valid() && ys != []
    ensures RowScan(img, y, ys) == ys + RawRows(img, y)
    decreases img.height - y
  {
    if y < img.height {
      if RowIsWhite(img, y) {
        RowScanAfterFirst(img, y + SkipAmount + 1, ys + [y]);
      } else {
        RowScanAfterFirst(img, y + 1, ys);
      }
    }
  }

  /** The rows found from y on are white rows in [y, height), each at least
      SkipAmount + 1 below the previous one. */
  lemma {:induction false} RawRowsSpaced(img: Raster, y: nat)
    requires img.Valid()
    ensures Spaced(RawRows(img, y), SkipAmount + 1) && Between(RawRows(img, y), y, img.height)
    ensures forall k :: 0 <= k < |RawRows(img, y)| ==> RowIsWhite(img, RawRows(img, y)[k])
    decreases img.height - y
  {
    if y < img.height {
      if RowIsWhite(img, y) {
        var rest := RawRows(img, y + SkipAmount + 1);
        RawRowsSpaced(img, y + SkipAmount + 1);
        assert RawRows(img, y) == [y] + rest;
        ConsSpaced(y, rest, SkipAmount + 1, img.height);
        forall k | 0 <= k < |rest| + 1 ensures RowIsWhite(img, ([y] + rest)[k]) {
          if k > 0 {
            assert ([y] + rest)[k] == rest[k - 1];
          }
        }
      } else {
        RawRowsSpaced(img, y + 1);
        assert RawRows(img, y) == RawRows(img, y + 1);
      }
    }
  }

  /** A divider placed at least `gap` before the rest keeps the list spaced. */
  lemma ConsSpaced(d: nat, rest: seq<nat>, gap: nat, hi: nat)
    requires d < hi && Spaced(rest, gap) && Between(rest, d + gap, hi)
    ensures Spaced([d] + rest, gap) && Between([d] + rest, d, hi)
  {
    var ds := [d] + rest;
    forall k | 0 <= k < |ds| - 1 ensures ds[k] + gap <= ds[k + 1] {
      assert ds[k + 1] == rest[k];
      if k > 0 {
        assert ds[k] == rest[k - 1];
      }
    }
  }

  /** Every white row at or below y is found, unless it lies within SkipAmount rows
      below a divider that was found. */
  lemma {:induction false} RawRowsComplete(img: Raster, y: nat, r: nat)
    requires img.Valid() && y <= r < img.height && RowIsWhite(img, r)
    ensures r in RawRows(img, y) || exists d :: d in RawRows(img, y) && d < r <= d + SkipAmount
    decreases img.height - y
  {
    if RowIsWhite(img, y) {
      if r > y + SkipAmount {
        RawRowsComplete(img, y + SkipAmount + 1, r);
        if r !in RawRows(img, y + SkipAmount + 1) {
          var d :| d in RawRows(img, y + SkipAmount + 1) && d < r <= d + SkipAmount;
          assert d in RawRows(img, y);
        }
      } else if r > y {
        assert y in RawRows(img, y);
      }
    } else {
      RawRowsComplete(img, y + 1, r);
    }
  }

  /** The row loop's output is the synthesised leading 0, if any, followed by the white
      rows it found: a leading 0 appears exactly when no white row was found above row
      SkipAmount + 1 of an image taller than that. */
  lemma {:induction false} RowScanSplit(img: Raster, y: nat)
    requires img.Valid() && y <= SkipAmount + 1
    ensures RowScan(img, y, []) == Lead(RawRows(img, y), img.height) + RawRows(img, y)
    decreases img.height - y
  {
    if y < img.height {
      if y > SkipAmount {
        RowScanAfterFirst(img, y, [0]);
        RawRowsSpaced(img, y);
        if RowIsWhite(img, y) {
          assert RowScan(img, y, []) == RowScan(img, y + SkipAmount + 1, [0] + [y]);
        }
      } else if RowIsWhite(img, y) {
        RowScanAfterFirst(img, y + SkipAmount + 1, [y]);
        assert RowScan(img, y, []) == RowScan(img, y + SkipAmount + 1, [] + [y]);
        assert [] + [y] == [y];
        assert RawRows(img, y)[0] == y;
        assert Lead(RawRows(img, y), img.height) == [];
        assert RowScan(img, y, []) == RawRows(img, y);
      } else {
        RowScanSplit(img, y + 1);
      }
    }
  }

  // ---------------------------------------------- scan properties: columns

  lemma {:induction false} ColumnScanAfterFirst(img: Raster, x: nat, urg: nat, xs: seq<nat>)
    requires img.Valid() && xs != []
    ensures ColumnScan(img, x, urg, xs) == xs + RawColumns(img, x, urg)
    decreases img.width - x
  {
    if x < img.width {
      var run := ScanColumn(img, x, 0, urg);
      if run.divider {
        ColumnScanAfterFirst(img, x + SkipAmount + 1, run.urg, xs + [x]);
      } else {
        ColumnScanAfterFirst(img, x + 1, run.urg, xs);
      }
    }
  }

  lemma {:induction false} RawColumnsSpaced(img: Raster, x: nat, urg: nat)
    requires img.Valid()
    ensures Spaced(RawColumns(img, x, urg), SkipAmount + 1)
    ensures Between(RawColumns(img, x, urg), x, img.width)
    decreases img.width - x
  {
    if x < img.width {
      var run := ScanColumn(img, x, 0, urg);
      if run.divider {
        var rest := RawColumns(img, x + SkipAmount + 1, run.urg);
        RawColumnsSpaced(img, x + SkipAmount + 1, run.urg);
        assert RawColumns(img, x, urg) == [x] + rest;
        ConsSpaced(x, rest, SkipAmount + 1, img.width);
      } else {
        RawColumnsSpaced(img, x + 1, run.urg);
      }
    }
  }

  /** The column loop's output is the synthesised leading 0, if any, followed by the
      divider columns it found. */
  lemma {:induction false} ColumnScanSplit(img: Raster, x: nat, urg: nat)
    requires img.Valid() && x <= SkipAmount + 1
    ensures ColumnScan(img, x, urg, []) == Lead(RawColumns(img, x, urg), img.width) + RawColumns(img, x, urg)
    decreases img.width - x
  {
    if x < img.width {
      var run := ScanColumn(img, x, 0, urg);
      if x > SkipAmount {
        ColumnScanAfterFirst(img, x, urg, [0]);
        RawColumnsSpaced(img, x, urg);
        if run.divider {
          assert ColumnScan(img, x, urg, []) == ColumnScan(img, x + SkipAmount + 1, run.urg, [0] + [x]);
        }
      } else if run.divider {
        ColumnScanAfterFirst(img, x + SkipAmount + 1, run.urg, [x]);
        assert ColumnScan(img, x, urg, []) == ColumnScan(img, x + SkipAmount + 1, run.urg, [] + [x]);
        assert [] + [x] == [x];
        assert RawColumns(img, x, urg)[0] == x;
        assert Lead(RawColumns(img, x, urg), img.width) == [];
        assert ColumnScan(img, x, urg, []) == RawColumns(img, x, urg);
      } else {
        ColumnScanSplit(img, x + 1, run.urg);
      }
    }
  }

  /** A column that is white from row y down is a divider, whatever the counter. */
  lemma {:induction false} WhiteColumnIsDivider(img: Raster, x: nat, y: nat, urg: nat)
    requires img.Valid() && x < img.width && y <= img.height
    requires forall r :: y <= r < img.height ==> img.Pixel(x, r) >= BasicallyWhite
    ensures ScanColumn(img, x, y, urg).divider
    decreases img.height - y
  {
    if y < img.height {
      WhiteColumnIsDivider(img, x, y + 1, 0);
    }
  }

  /** A divider column has no non-white sample below the point of no return. */
  lemma {:induction false} DividerIsWhiteBelow(img: Raster, x: nat, y: nat, urg: nat)
    requires img.Valid() && x < img.width && y <= img.height
    requires ScanColumn(img, x, y, urg).divider
    ensures forall r :: y <= r < img.height && r > PointOfNoReturn ==> img.Pixel(x, r) >= BasicallyWhite
    decreases img.height - y
  {
    if y < img.height {
      if img.Pixel(x, y) < BasicallyWhite {
        DividerIsWhiteBelow(img, x, y + 1, urg + 1);
      } else {
        DividerIsWhiteBelow(img, x, y + 1, 0);
      }
    }
  }

  /** Above the point of no return a run of non-white samples is tunnelled through as
      long as, with the counter it starts from, it stays within UrgTolerance + 1. */
  lemma {:induction false} ShortRunTolerated(img: Raster, x: nat, y: nat, urg: nat, k: nat)
    requires img.Valid() && x < img.width && y + k <= img.height
    requires y + k <= PointOfNoReturn + 1 && urg + k <= UrgTolerance + 1
    requires forall r :: y + k <= r < img.height ==> img.Pixel(x, r) >= BasicallyWhite
    ensures ScanColumn(img, x, y, urg).divider
    decreases k
  {
    if k == 0 {
      WhiteColumnIsDivider(img, x, y, urg);
    } else if img.Pixel(x, y) < BasicallyWhite {
      ShortRunTolerated(img, x, y + 1, urg + 1, k - 1);
    } else {
      ShortRunTolerated(img, x, y + 1, 0, k - 1);
    }
  }

  /** A run of non-white samples that reaches UrgTolerance + 2 counting the counter it
      starts from stops the column, even above the point of no return. */
  lemma {:induction false} LongRunRejected(img: Raster, x: nat, y: nat, urg: nat, k: nat)
    requires img.Valid() && x < img.width && y + k <= img.height && y + k <= PointOfNoReturn + 1
    requires urg + k >= UrgTolerance + 2 && k > 0
    requires forall r :: y <= r < y + k ==> img.Pixel(x, r) < BasicallyWhite
    ensures !ScanColumn(img, x, y, urg).divider
    decreases k
  {
    if urg <= UrgTolerance {
      LongRunRejected(img, x, y + 1, urg + 1, k - 1);
    }
  }

  // ---------------------------------------------------------- edge dividers

  /** The trailing divider: the far edge is appended when the last divider found is
      more than SkipAmount away from it. A scan that found nothing stays empty. */
  function CloseDividers(ds: seq<nat>, dim: nat): (r: seq<nat>)
    ensures Spaced(ds, SkipAmount) && Between(ds, 0, dim) ==> Spaced(r, SkipAmount) && Between(r, 0, dim)
    ensures |r| == |ds| || (|ds| > 0 && r == ds + [dim - 1] && ds[|ds| - 1] < dim - SkipAmount)
  {
    if |ds| > 0 && ds[|ds| - 1] < dim - SkipAmount then ds + [dim - 1] else ds
  }

  /** The trailing-divider step as the source writes it: `assert(xs.size() > 0)`
      followed by `xs.back()`, which has no meaning for an empty list. */
  function CloseDividersAsWritten(ds: seq<nat>, dim: nat): (r: seq<nat>)
    requires |ds| > 0
    ensures r == CloseDividers(ds, dim)
    ensures r[|r| - 1] == dim - 1 || r == ds
  {
    if ds[|ds| - 1] < dim - SkipAmount then ds + [dim - 1] else ds
  }

  function RowDividers(img: Raster): seq<nat>
    requires img.Valid()
  {
    CloseDividers(RowScan(img, 0, []), img.height)
  }

  function ColumnDividers(img: Raster): seq<nat>
    requires img.Valid()
  {
    CloseDividers(ColumnScan(img, 0, 0, []), img.width)
  }

  /** Prefixing the synthesised 0 keeps a list of found dividers SkipAmount apart, and
      the result starts at or above SkipAmount whenever the axis is long enough. */
  lemma LeadSpaced(raw: seq<nat>, dim: nat)
    requires Spaced(raw, SkipAmount + 1) && Between(raw, 0, dim)
    ensures Spaced(Lead(raw, dim) + raw, SkipAmount) && Between(Lead(raw, dim) + raw, 0, dim)
    ensures dim > SkipAmount + 1 ==> Lead(raw, dim) + raw != [] && (Lead(raw, dim) + raw)[0] <= SkipAmount
  {
    var r := Lead(raw, dim) + raw;
    if Lead(raw, dim) != [] {
      forall k | 0 <= k < |r| - 1 ensures r[k] + SkipAmount <= r[k + 1] {
        if k > 0 {
          assert r[k] == raw[k - 1] && r[k + 1] == raw[k];
        }
      }
    } else {
      assert r == raw;
    }
  }

  /** The row dividers increase by at least SkipAmount, lie inside the image, and are
      non-empty with the first at or above row SkipAmount once the image is taller than
      SkipAmount + 1. */
  lemma RowDividersSpaced(img: Raster)
    requires img.Valid()
    ensures Spaced(RowDividers(img), SkipAmount) && Between(RowDividers(img), 0, img.height)
    ensures img.height > SkipAmount + 1 ==> RowDividers(img) != [] && RowDividers(img)[0] <= SkipAmount
  {
    RowScanSplit(img, 0);
    RawRowsSpaced(img, 0);
    LeadSpaced(RawRows(img, 0), img.height);
  }

  /** The same for the column dividers. */
  lemma ColumnDividersSpaced(img: Raster)
    requires img.Valid()
    ensures Spaced(ColumnDividers(img), SkipAmount) && Between(ColumnDividers(img), 0, img.width)
    ensures img.width > SkipAmount + 1 ==> ColumnDividers(img) != [] && ColumnDividers(img)[0] <= SkipAmount
  {
    ColumnScanSplit(img, 0, 0);
    RawColumnsSpaced(img, 0, 0);
    LeadSpaced(RawColumns(img, 0, 0), img.width);
  }

  // ------------------------------------------------------------------- grid

  /** The panel spanning [x0, x1) by [y0, y1). */
  function Cell(x0: nat, x1: nat, y0: nat, y1: nat): Panel {
    Panel(Rect(x0, y0, x1 as int - x0, y1 as int - y0), [])
  }

  /** The panels between consecutive vertical dividers, for one band [y0, y1). */
  function GridRow(xs: seq<nat>, y0: nat, y1: nat): seq<Panel>
  {
    if |xs| < 2 then []
    else GridRow(xs[..|xs| - 1], y0, y1) + [Cell(xs[|xs| - 2], xs[|xs| - 1], y0, y1)]
  }

  /** All panels, band by band from the top (row-major). */
  function Grid(xs: seq<nat>, ys: seq<nat>): seq<Panel>
  {
    if |ys| < 2 then [] else Grid(xs, ys[..|ys| - 1]) + GridRow(xs, ys[|ys| - 2], ys[|ys| - 1])
  }

  lemma {:induction false} GridRowShape(xs: seq<nat>, y0: nat, y1: nat)
    requires |xs| >= 1
    ensures |GridRow(xs, y0, y1)| == |xs| - 1
    ensures forall c :: 0 <= c < |xs| - 1 ==> GridRow(xs, y0, y1)[c] == Cell(xs[c], xs[c + 1], y0, y1)
  {
    if |xs| >= 2 {
      GridRowShape(xs[..|xs| - 1], y0, y1);
    }
  }

  /** The grid holds (|ys| - 1) * (|xs| - 1) panels. */
  lemma {:induction false} GridSize(xs: seq<nat>, ys: seq<nat>)
    requires |xs| >= 1 && |ys| >= 1
    ensures |Grid(xs, ys)| == (|ys| - 1) * (|xs| - 1)
  {
    if |ys| >= 2 {
      var n := |xs| - 1;
      GridSize(xs, ys[..|ys| - 1]);
      GridRowShape(xs, ys[|ys| - 2], ys[|ys| - 1]);
      assert (|ys| - 2) * n + n == (|ys| - 1) * n;
    }
  }

  /** The row-major index of band r, column c, with `columns` panels per band. */
  function PanelIndex(r: nat, c: nat, columns: nat): nat {
    r * columns + c
  }

  /** The panel of band r and column c sits at index r * (|xs| - 1) + c and spans
      [xs[c], xs[c + 1]) by [ys[r], ys[r + 1]). */

  lemma {:induction false} GridCell(xs: seq<nat>, ys: seq<nat>, r: nat, c: nat, i: nat)
    requires |xs| >= 1 && r < |ys| - 1 && c < |xs| - 1 && i == PanelIndex(r, c, |xs| - 1)
    ensures i < |Grid(xs, ys)|
    ensures Grid(xs, ys)[i] == Cell(xs[c], xs[c + 1], ys[r], ys[r + 1])
  {
    var n := |xs| - 1;
    var front := ys[..|ys| - 1];
    GridSize(xs, front);
    GridRowShape(xs, ys[|ys| - 2], ys[|ys| - 1]);
    if r < |ys| - 2 {
      GridCell(xs, front, r, c, i);
      assert Grid(xs, ys)[i] == Grid(xs, front)[i];
    } else {
      assert i == |Grid(xs, front)| + c;
      assert Grid(xs, ys)[i] == GridRow(xs, ys[|ys| - 2], ys[|ys| - 1])[c];
    }
  }

  // -------------------------------------------------------------- findPanels

  /** What findPanels appends to the page, or why it throws. */
  function FindPanelsSpec(img: Raster): Result<seq<Panel>, PanelError>
    requires img.Valid()
  {
    if img.width <= SkipAmount || img.height <= SkipAmount then Failure(ImageTooSmall)
    else
      var ys := RowDividers(img);
      var xs := ColumnDividers(img);
      if |xs| < 2 || |ys| < 2 then Failure(GridDegenerate) else Success(Grid(xs, ys))
  }

  method FindPanels(ctx: Context) returns (error: Option<PanelError>)
    requires ctx.img.Valid()
    modifies ctx
    ensures FindPanelsSpec(ctx.img).Failure? ==>
      error == Some(FindPanelsSpec(ctx.img).error) && ctx.panels == old(ctx.panels)
    ensures FindPanelsSpec(ctx.img).Success? ==>
      error == None && ctx.panels == old(ctx.panels) + FindPanelsSpec(ctx.img).value
  {
    var img := ctx.img;
    if img.width <= SkipAmount || img.height <= SkipAmount {
      return Some(ImageTooSmall);
    }
    var xs, ys := FindDividers(img);
    if |xs| < 2 || |ys| < 2 {
      return Some(GridDegenerate);
    }
    ColumnDividersSpaced(img);
    RowDividersSpaced(img);
    assert FindPanelsSpec(img) == Success(Grid(xs, ys));
    AppendGrid(ctx, xs, ys);
    error := None;
  }

  /** The outer loop of findPanels: the bands from the top. */
  method AppendGrid(ctx: Context, xs: seq<nat>, ys: seq<nat>)
    requires |xs| >= 1 && Spaced(xs, SkipAmount) && Spaced(ys, SkipAmount)
    modifies ctx
    ensures ctx.panels == old(ctx.panels) + Grid(xs, ys)
  {
    if |ys| < 2 {
      return;
    }
    var r := 0;
    while r < |ys| - 1
      invariant 0 <= r <= |ys| - 1
      invariant ctx.panels == old(ctx.panels) + Grid(xs, ys[..r + 1])
    {
      assert ys[r] < ys[r + 1];
      AppendGridRow(ctx, xs, ys[r], ys[r + 1]);
      assert ys[..r + 2][..r + 1] == ys[..r + 1];
      r := r + 1;
    }
    assert ys[..|ys|] == ys;
  }

  /** The inner loop of findPanels: the panels of one band, left to right. */
  method AppendGridRow(ctx: Context, xs: seq<nat>, y0: nat, y1: nat)
    requires |xs| >= 1 && Spaced(xs, SkipAmount) && y0 < y1
    modifies ctx
    ensures ctx.panels == old(ctx.panels) + GridRow(xs, y0, y1)
  {
    var c := 0;
    while c < |xs| - 1
      invariant 0 <= c <= |xs| - 1
      invariant ctx.panels == old(ctx.panels) + GridRow(xs[..c + 1], y0, y1)
    {
      var x0, x1 := xs[c], xs[c + 1];
      assert x0 < x1;
      ctx.panels := ctx.panels + [Cell(x0, x1, y0, y1)];
      assert xs[..c + 2][..c + 1] == xs[..c + 1];
      c := c + 1;
    }
    assert xs[..|xs|] == xs;
  }

  /** Both scans of findPanels with their trailing dividers. */
  method FindDividers(img: Raster) returns (xs: seq<nat>, ys: seq<nat>)
    requires img.Valid()
    ensures xs == ColumnDividers(img) && ys == RowDividers(img)
  {
    ys := ScanRows(img);
    xs := ScanColumns(img);
    if |xs| > 0 && xs[|xs| - 1] < img.width - SkipAmount {
      xs := xs + [img.width - 1];
    }
    if |ys| > 0 && ys[|ys| - 1] < img.height - SkipAmount {
      ys := ys + [img.height - 1];
    }
  }

  /** On success findPanels yields (|ys| - 1) * (|xs| - 1) panels in row-major order:
      the one of band r and column c spans [xs[c], xs[c + 1]) by [ys[r], ys[r + 1]), is
      at least SkipAmount wide and high, and lies inside the image. */
  lemma FindPanelsGrid(img: Raster, r: nat, c: nat)
    requires img.Valid() && FindPanelsSpec(img).Success?
    requires r < |RowDividers(img)| - 1 && c < |ColumnDividers(img)| - 1
    ensures |FindPanelsSpec(img).value| == (|RowDividers(img)| - 1) * (|ColumnDividers(img)| - 1)
    ensures var xs, ys := ColumnDividers(img), RowDividers(img);
      var i := PanelIndex(r, c, |xs| - 1);
      i < |FindPanelsSpec(img).value| &&
      FindPanelsSpec(img).value[i] == Cell(xs[c], xs[c + 1], ys[r], ys[r + 1])
    ensures var p := Cell(ColumnDividers(img)[c], ColumnDividers(img)[c + 1], RowDividers(img)[r], RowDividers(img)[r + 1]).bounds;
      p.width >= SkipAmount && p.height >= SkipAmount &&
      0 <= p.x && p.Right() < img.width && 0 <= p.y && p.Bottom() < img.height
  {
    var xs, ys := ColumnDividers(img), RowDividers(img);
    ColumnDividersSpaced(img);
    RowDividersSpaced(img);
    GridShape(xs, ys, img.width, img.height, r, c);
  }

  /** The grid over dividers SkipAmount apart inside a w by h image. */
  lemma GridShape(xs: seq<nat>, ys: seq<nat>, w: nat, h: nat, r: nat, c: nat)
    requires Spaced(xs, SkipAmount) && Between(xs, 0, w) && Spaced(ys, SkipAmount) && Between(ys, 0, h)
    requires r < |ys| - 1 && c < |xs| - 1
    ensures |Grid(xs, ys)| == (|ys| - 1) * (|xs| - 1)
    ensures var i := PanelIndex(r, c, |xs| - 1);
      i < |Grid(xs, ys)| && Grid(xs, ys)[i] == Cell(xs[c], xs[c + 1], ys[r], ys[r + 1])
    ensures var p := Cell(xs[c], xs[c + 1], ys[r], ys[r + 1]).bounds;
      p.width >= SkipAmount && p.height >= SkipAmount && 0 <= p.x && p.Right() < w && 0 <= p.y && p.Bottom() < h
  {
    GridSize(xs, ys);
    GridCell(xs, ys, r, c, PanelIndex(r, c, |xs| - 1));
    assert xs[c] + SkipAmount <= xs[c + 1] && ys[r] + SkipAmount <= ys[r + 1];
  }

  // ------------------------------------------------------- whole-page cases

  /** Without a white row from y on, the row loop finds nothing. */
  lemma {:induction false} NoWhiteRowNoDivider(img: Raster, y: nat)
    requires img.Valid()
    requires forall r :: y <= r < img.height ==> !RowIsWhite(img, r)
    ensures RawRows(img, y) == []
    decreases img.height - y
  {
    if y < img.height {
      NoWhiteRowNoDivider(img, y + 1);
    }
  }

  /** When the top UrgTolerance + 2 samples of every column from x on are dark, the
      column loop finds nothing, whatever counter it starts with. */
  lemma {:induction false} DarkTopNoDivider(img: Raster, x: nat, urg: nat)
    requires img.Valid() && img.height >= UrgTolerance + 2
    requires forall c, r :: x <= c < img.width && 0 <= r < UrgTolerance + 2 ==> img.Pixel(c, r) < BasicallyWhite
    ensures RawColumns(img, x, urg) == []
    decreases img.width - x
  {
    if x < img.width {
      LongRunRejected(img, x, 0, urg, UrgTolerance + 2);
      DarkTopNoDivider(img, x + 1, ScanColumn(img, x, 0, urg).urg);
    }
  }

  /** A page larger than SkipAmount + 1 on both axes with no divider at all becomes a
      single panel spanning from the origin to the last row and column. */
  lemma DividerlessPageIsOnePanel(img: Raster)
    requires img.Valid() && img.width > SkipAmount + 1 && img.height > SkipAmount + 1
    requires forall r :: 0 <= r < img.height ==> !RowIsWhite(img, r)
    requires forall c, r :: 0 <= c < img.width && 0 <= r < UrgTolerance + 2 ==> img.Pixel(c, r) < BasicallyWhite
    ensures FindPanelsSpec(img) == Success([Cell(0, img.width - 1, 0, img.height - 1)])
  {
    NoWhiteRowNoDivider(img, 0);
    DarkTopNoDivider(img, 0, 0);
    RowScanSplit(img, 0);
    ColumnScanSplit(img, 0, 0);
    assert RowDividers(img) == [0, img.height - 1];
    assert ColumnDividers(img) == [0, img.width - 1];
    var xs := [0, img.width - 1];
    assert Grid(xs, [0, img.height - 1]) == Grid(xs, [0]) + GridRow(xs, 0, img.height - 1);
    assert xs[..1] == [0];
    assert GridRow(xs, 0, img.height - 1) == GridRow([0], 0, img.height - 1) + [Cell(0, img.width - 1, 0, img.height - 1)];
    assert Grid(xs, [0]) == [] && GridRow([0], 0, img.height - 1) == [];
    assert Grid(xs, [0, img.height - 1]) == [Cell(0, img.width - 1, 0, img.height - 1)];
    assert FindPanelsSpec(img) == Success(Grid(xs, [0, img.height - 1]));
  }

  /** A uniformly shaded page. */
  function Solid(width: nat, height: nat, shade: Byte): (img: Raster)
    ensures img.Valid()
    ensures img.width == width && img.height == height
    ensures forall x, y :: 0 <= x < img.width && 0 <= y < img.height ==> img.Pixel(x, y) == shade
  {
    Raster(width, height, seq(height, _ => seq(width, _ => shade)))
  }

  /** On a black 101 x 101 page both scans come back empty: the guard lets the page
      through, no row or column is white and the leading 0 is only synthesised past
      index 101, so the trailing-divider step as written reads the last element of an
      empty list. With the empty list kept empty, the page is rejected as degenerate. */
  lemma BlackPage101EmptiesScans()
    ensures RowScan(Solid(101, 101, 0), 0, []) == [] && ColumnScan(Solid(101, 101, 0), 0, 0, []) == []
    ensures FindPanelsSpec(Solid(101, 101, 0)) == Failure(GridDegenerate)
  {
    var img := Solid(101, 101, 0);
    forall r | 0 <= r < img.height ensures !RowIsWhite(img, r) {
      assert img.Pixel(0, r) == 0;
    }
    NoWhiteRowNoDivider(img, 0);
    DarkTopNoDivider(img, 0, 0);
    RowScanSplit(img, 0);
    ColumnScanSplit(img, 0, 0);
  }
}
