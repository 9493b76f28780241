/** Splitting an image into overlapping grid regions and cropping them
    (crates/pengu-mesh-artifacts/src/lib.rs, crates/pengu-mesh-shared/src/types.rs).
    Regions are in thousandths of the image, with 999 as the largest coordinate. */
module Grid {
  import opened Common
  import opened Division

  datatype Region = Region(xMin: int, yMin: int, xMax: int, yMax: int)

  datatype GridError = NoRows | NoColumns | OverlapTooLarge | TooManyRegions | InvalidRegion

  predicate Valid(r: Region) {
    0 <= r.xMin < r.xMax <= 999 && 0 <= r.yMin < r.yMax <= 999
  }

  function Clamp(x: int, lo: int, hi: int): int {
    Max(lo, Min(x, hi))
  }

  function DivCeil(a: nat, b: nat): nat
    requires b > 0
  {
    (a + b - 1) / b
  }

  /** Along one axis cut into `n` parts: where part `i` begins and ends. */
  function Low(i: nat, n: nat, overlap: nat): int
    requires n > 0
  {
    Clamp(i * 1000 / n - overlap, 0, 999)
  }

  function High(i: nat, n: nat, overlap: nat): int
    requires n > 0
  {
    Clamp(DivCeil((i + 1) * 1000, n) + overlap, 1, 999)
  }

  function RegionAt(row: nat, col: nat, rows: nat, cols: nat, overlap: nat): Region
    requires rows > 0 && cols > 0
  {
    Region(Low(col, cols, overlap), Low(row, rows, overlap), High(col, cols, overlap), High(row, rows, overlap))
  }

  predicate Accepted(rows: nat, cols: nat, overlap: nat) {
    rows >= 1 && cols >= 1 && overlap <= 250 && rows * cols <= 64
  }

  predicate IsFloor(q: nat, x: nat, n: nat) {
    q * n <= x < (q + 1) * n
  }

  predicate IsCeiling(q: nat, x: nat, n: nat) {
    x <= q * n < x + n
  }

  /** Where part `i` of `n` of the thousand begins, out to a whole unit, and `overlap` before, as far
      as the image goes. */
  ghost predicate IsWidenedStart(min: int, i: nat, n: nat, overlap: nat) {
    var begin := 1000 * i;
    exists a: nat :: IsFloor(a, begin, n) && min == Max(0, a - overlap)
  }

  ghost predicate IsWidenedEnd(max: int, i: nat, n: nat, overlap: nat) {
    var end := 1000 * (i + 1);
    exists b: nat :: IsCeiling(b, end, n) && max == Min(999, b + overlap)
  }

  ghost predicate IsWidenedPart(min: int, max: int, i: nat, n: nat, overlap: nat) {
    IsWidenedStart(min, i, n, overlap) && IsWidenedEnd(max, i, n, overlap)
  }

  /** Columns go with x and rows with y. */
  ghost predicate IsWidenedCell(r: Region, row: nat, col: nat, rows: nat, cols: nat, overlap: nat) {
    IsWidenedPart(r.xMin, r.xMax, col, cols, overlap) && IsWidenedPart(r.yMin, r.yMax, row, rows, overlap)
  }

  lemma Quotient(x: nat, n: nat) returns (q: nat)
    requires n > 0
    ensures q == x / n && q * n <= x < q * n + n
  {
    DivisionBounds(x, n);
    q := x / n;
  }

  lemma PartBounds(i: nat, n: nat) returns (a: nat, b: nat)
    requires i < n <= 64
    ensures a == i * 1000 / n && IsFloor(a, 1000 * i, n) && a < 999
    ensures b == DivCeil((i + 1) * 1000, n) && IsCeiling(b, 1000 * (i + 1), n) && 1 <= b <= 1000
  {
    a := Quotient(i * 1000, n);
    b := Quotient((i + 1) * 1000 + n - 1, n);
    MulMonotone(i + 1, n, 1000);
    assert (a + 1) * n == a * n + n;
    if a >= 999 { MulMonotone(999, a, n); }
    if b > 1000 { MulMonotone(1001, b, n); }
  }

  lemma PartIsWidened(i: nat, n: nat, overlap: nat)
    requires i < n <= 64
    ensures IsWidenedPart(Low(i, n, overlap), High(i, n, overlap), i, n, overlap)
  {
    hide DivCeil, Low, High, IsFloor, IsCeiling, IsWidenedStart, IsWidenedEnd;
    var a, b := PartLimits(i, n);
    PartEnds(i, n, a, b, overlap);
  }

  /** Within the image the other limit never bites. */
  lemma PartLimits(i: nat, n: nat) returns (a: nat, b: nat)
    requires i < n <= 64
    ensures IsFloor(a, 1000 * i, n) && IsCeiling(b, 1000 * (i + 1), n)
    ensures forall overlap: nat :: Low(i, n, overlap) == Max(0, a - overlap)
    ensures forall overlap: nat :: High(i, n, overlap) == Min(999, b + overlap)
  {
    hide DivCeil, IsFloor, IsCeiling, Clamp, Max, Min;
    a, b := PartBounds(i, n);
    forall overlap: nat
      ensures Low(i, n, overlap) == Max(0, a - overlap)
      ensures High(i, n, overlap) == Min(999, b + overlap)
    {
      OneLimit(a, b, overlap);
    }
  }

  lemma OneLimit(a: nat, b: nat, overlap: nat)
    requires a < 999 && 1 <= b
    ensures Clamp(a - overlap, 0, 999) == Max(0, a - overlap)
    ensures Clamp(b + overlap, 1, 999) == Min(999, b + overlap)
  {
  }

  lemma PartEnds(i: nat, n: nat, a: nat, b: nat, overlap: nat)
    requires IsFloor(a, 1000 * i, n) && IsCeiling(b, 1000 * (i + 1), n)
    ensures IsWidenedStart(Max(0, a - overlap), i, n, overlap) && IsWidenedEnd(Min(999, b + overlap), i, n, overlap)
  {
    hide IsFloor, IsCeiling;
  }

  lemma PartWidens(i: nat, n: nat, overlap: nat)
    requires i < n <= 64
    ensures Low(i, n, overlap) == Max(0, Low(i, n, 0) - overlap)
    ensures High(i, n, overlap) == Min(999, High(i, n, 0) + overlap)
  {
    hide DivCeil, Low, High, IsFloor, IsCeiling;
    var a, b := PartLimits(i, n);
  }

  function Slot(row: nat, col: nat, cols: nat): nat {
    row * cols + col
  }

  /** The region of a row and column stands in its slot, and is the widened cell. */
  ghost predicate IsGrid(regions: seq<Region>, rows: nat, cols: nat, overlap: nat)
    requires rows > 0 && cols > 0
  {
    && |regions| == rows * cols
    && forall row: nat, col: nat | row < rows && col < cols ::
         && Slot(row, col, cols) < |regions|
         && regions[Slot(row, col, cols)] == RegionAt(row, col, rows, cols, overlap)
         && IsWidenedCell(regions[Slot(row, col, cols)], row, col, rows, cols, overlap)
  }

  lemma RegionIsWidenedCell(row: nat, col: nat, rows: nat, cols: nat, overlap: nat)
    requires Accepted(rows, cols, overlap) && row < rows && col < cols
    ensures IsWidenedCell(RegionAt(row, col, rows, cols, overlap), row, col, rows, cols, overlap)
  {
    hide IsWidenedPart, Low, High;
    MulMonotone(1, rows, cols);
    MulMonotone(1, cols, rows);
    PartIsWidened(row, rows, overlap);
    PartIsWidened(col, cols, overlap);
  }

  /** The overlap widens a region by itself on every side and no further than the image. */
  lemma OverlapWidens(rows: nat, cols: nat, overlap: nat, row: nat, col: nat)
    requires Accepted(rows, cols, overlap) && row < rows && col < cols
    ensures var plain, wide := RegionAt(row, col, rows, cols, 0), RegionAt(row, col, rows, cols, overlap);
      && wide.xMin == Max(0, plain.xMin - overlap) && wide.xMax == Min(999, plain.xMax + overlap)
      && wide.yMin == Max(0, plain.yMin - overlap) && wide.yMax == Min(999, plain.yMax + overlap)
  {
    hide Low, High;
    MulMonotone(1, rows, cols);
    MulMonotone(1, cols, rows);
    PartWidens(row, rows, overlap);
    PartWidens(col, cols, overlap);
  }

  /** Row by row: region `row * cols + col` is that of the row and column. Within the accepted
      arguments no region is ever invalid, so each error has exactly one cause. */
  method BatchGridRegions(rows: nat, cols: nat, overlap: nat) returns (r: Result<seq<Region>, GridError>)
    ensures r.Ok? <==> Accepted(rows, cols, overlap)
    ensures r.Ok? ==> IsGrid(r.value, rows, cols, overlap)
    ensures r.Err? ==> match r.error
      case NoRows => rows == 0
      case NoColumns => rows > 0 && cols == 0
      case OverlapTooLarge => rows > 0 && cols > 0 && overlap > 250
      case TooManyRegions => rows > 0 && cols > 0 && overlap <= 250 && rows * cols > 64
      case InvalidRegion => false
  {
    if rows < 1 { return Err(NoRows); }
    if cols < 1 { return Err(NoColumns); }
    if overlap > 250 { return Err(OverlapTooLarge); }
    if rows * cols > 64 { return Err(TooManyRegions); }
    var regions: seq<Region> := [];
    assert Filled(regions, 0, 0, rows, cols, overlap);
    hide Filled, RegionAt, IsGrid, Valid;
    for row := 0 to rows
      invariant Filled(regions, row, 0, rows, cols, overlap)
    {
      for col := 0 to cols
        invariant Filled(regions, row, col, rows, cols, overlap)
      {
        var region := RegionAt(row, col, rows, cols, overlap);
        RegionIsValid(row, col, rows, cols, overlap);
        if !Valid(region) {
          return Err(InvalidRegion);
        }
        FilledNext(regions, row, col, rows, cols, overlap);
        regions := regions + [region];
      }
      RowDone(regions, row, rows, cols, overlap);
    }
    RowsDone(regions, rows, cols, overlap);
    return Ok(regions);
  }

  /** All regions before the given row and column are in place. */
  ghost predicate Filled(regions: seq<Region>, row: nat, col: nat, rows: nat, cols: nat, overlap: nat)
    requires rows > 0 && cols > 0
  {
    && |regions| == row * cols + col
    && forall k | 0 <= k < |regions| :: regions[k] == RegionAt(k / cols, k % cols, rows, cols, overlap)
  }

  lemma Position(row: nat, col: nat, cols: nat)
    requires col < cols
    ensures (row * cols + col) / cols == row && (row * cols + col) % cols == col
  {
    DivIs(row * cols + col, cols, row, col);
  }

  lemma FilledNext(regions: seq<Region>, row: nat, col: nat, rows: nat, cols: nat, overlap: nat)
    requires rows > 0 && col < cols && Filled(regions, row, col, rows, cols, overlap)
    ensures Filled(regions + [RegionAt(row, col, rows, cols, overlap)], row, col + 1, rows, cols, overlap)
  {
    Position(row, col, cols);
  }

  lemma RowDone(regions: seq<Region>, row: nat, rows: nat, cols: nat, overlap: nat)
    requires rows > 0 && cols > 0 && Filled(regions, row, cols, rows, cols, overlap)
    ensures Filled(regions, row + 1, 0, rows, cols, overlap)
  {
  }

  lemma RowsDone(regions: seq<Region>, rows: nat, cols: nat, overlap: nat)
    requires Accepted(rows, cols, overlap) && Filled(regions, rows, 0, rows, cols, overlap)
    ensures IsGrid(regions, rows, cols, overlap)
  {
    hide RegionAt, IsWidenedCell, Slot;
    forall row: nat, col: nat | row < rows && col < cols
      ensures Slot(row, col, cols) < |regions|
      ensures regions[Slot(row, col, cols)] == RegionAt(row, col, rows, cols, overlap)
      ensures IsWidenedCell(regions[Slot(row, col, cols)], row, col, rows, cols, overlap)
    {
      SlotBounds(row, col, rows, cols);
      RegionIsWidenedCell(row, col, rows, cols, overlap);
    }
  }

  lemma SlotBounds(row: nat, col: nat, rows: nat, cols: nat)
    requires row < rows && col < cols
    ensures Slot(row, col, cols) < rows * cols
    ensures Slot(row, col, cols) / cols == row && Slot(row, col, cols) % cols == col
  {
    Position(row, col, cols);
    assert row * cols + cols == (row + 1) * cols <= rows * cols by { MulMonotone(row + 1, rows, cols); }
  }

  // ----- one axis

  lemma PartIsProper(i: nat, n: nat, overlap: nat)
    requires i < n <= 64
    ensures 0 <= Low(i, n, overlap) < High(i, n, overlap) <= 999
  {
    var lo, hi := i * 1000 / n, DivCeil((i + 1) * 1000, n);
    assert lo < hi && lo < 999 by {
      DivisionBounds(i * 1000, n);
      CeilingBounds((i + 1) * 1000, n);
      MulMonotone(i + 1, n, 1000);
      if lo >= hi {
        MulMonotone(hi, lo, n);
      }
      if lo >= 999 {
        MulMonotone(999, lo, n);
      }
    }
  }

  lemma CeilingBounds(a: nat, b: nat)
    requires b > 0
    ensures a <= DivCeil(a, b) * b < a + b
  {
  }

  lemma RegionIsValid(row: nat, col: nat, rows: nat, cols: nat, overlap: nat)
    requires row < rows && col < cols && rows * cols <= 64
    ensures Valid(RegionAt(row, col, rows, cols, overlap))
  {
    MulMonotone(1, rows, cols);
    MulMonotone(1, cols, rows);
    PartIsProper(row, rows, overlap);
    PartIsProper(col, cols, overlap);
  }

  /** The part that covers the unit from `v` to `v + 1`. */
  lemma PartCovering(v: nat, n: nat, overlap: nat) returns (i: nat)
    requires v < 999 && 0 < n
    ensures i < n && Low(i, n, overlap) <= v && v + 1 <= High(i, n, overlap)
  {
    i := v * n / 1000;
    DivisionBounds(v * n, 1000);
    assert i < n by { MulMonotone(v, 999, n); }
    var lo, hi := i * 1000 / n, DivCeil((i + 1) * 1000, n);
    DivisionBounds(i * 1000, n);
    CeilingBounds((i + 1) * 1000, n);
    if lo > v { MulMonotone(v + 1, lo, n); }
    if hi < v + 1 { MulMonotone(hi, v, n); }
  }

  // ----- coverage in normalized units

  ghost predicate CoversUnit(r: Region, x: int, y: int) {
    r.xMin <= x && x + 1 <= r.xMax && r.yMin <= y && y + 1 <= r.yMax
  }

  /** Every accepted grid covers all of [0, 999) in both directions, without a gap, and nothing
      outside it. */
  lemma GridCovers(rows: nat, cols: nat, overlap: nat, x: int, y: int)
    requires Accepted(rows, cols, overlap)
    ensures (exists row: nat, col: nat ::
               row < rows && col < cols && CoversUnit(RegionAt(row, col, rows, cols, overlap), x, y))
      <==> 0 <= x < 999 && 0 <= y < 999
  {
    if 0 <= x < 999 && 0 <= y < 999 {
      var col := PartCovering(x, cols, overlap);
      var row := PartCovering(y, rows, overlap);
      assert CoversUnit(RegionAt(row, col, rows, cols, overlap), x, y);
    }
  }

  // ----- pixels

  function ScaleFloor(value: nat, dimension: nat): nat {
    value * dimension / 1000
  }

  function ScaleCeil(value: nat, dimension: nat): nat {
    DivCeil(value * dimension, 1000)
  }

  lemma FloorBelowCeiling(a: nat, b: nat, dimension: nat)
    requires a < b <= 999 * dimension
    ensures a / 1000 < DivCeil(b, 1000) <= dimension
  {
  }

  /** A proper interval of an image that has pixels never crops to nothing, and stays inside; so
      the 32-bit casts of the source lose nothing. */
  lemma CropIsProper(min: nat, max: nat, dimension: nat)
    requires min < max <= 999 && dimension > 0
    ensures ScaleFloor(min, dimension) < ScaleCeil(max, dimension) <= dimension
  {
    MulMonotone(min + 1, max, dimension);
    MulMonotone(max, 999, dimension);
    FloorBelowCeiling(min * dimension, max * dimension, dimension);
  }

  /** The part whose crop holds a pixel: the one that covers the unit the pixel begins in. */
  lemma PartHolding(n: nat, overlap: nat, dimension: nat, pixel: nat) returns (i: nat)
    requires 1 <= n && 0 < dimension && pixel < ScaleCeil(999, dimension)
    ensures i < n && Holds(i, n, overlap, dimension, pixel)
  {
    CeilingBounds(999 * dimension, 1000);
    hide DivCeil, Low, High;
    var v := Quotient(pixel * 1000, dimension);
    assert v < 999 by { if v >= 999 { MulMonotone(999, v, dimension); } }
    i := PartCovering(v, n, overlap);
    Straddles(Low(i, n, overlap), v, High(i, n, overlap), dimension, pixel);
  }

  lemma Straddles(lo: nat, v: nat, hi: nat, dimension: nat, pixel: nat)
    requires lo <= v < hi && v * dimension <= pixel * 1000 < v * dimension + dimension
    ensures ScaleFloor(lo, dimension) <= pixel < ScaleCeil(hi, dimension)
  {
    MulMonotone(lo, v, dimension);
    MulMonotone(v + 1, hi, dimension);
    DivisionBounds(lo * dimension, 1000);
    CeilingBounds(hi * dimension, 1000);
  }

  /** Part `i` of an axis is cropped to a range with this pixel in it. */
  ghost predicate Holds(i: nat, n: nat, overlap: nat, dimension: nat, pixel: int)
    requires n > 0
  {
    ScaleFloor(Low(i, n, overlap), dimension) <= pixel < ScaleCeil(High(i, n, overlap), dimension)
  }

  /** Along one axis the crops of all parts together are exactly the pixels before the last
      thousandth, rounded up. */
  lemma CropsCover(n: nat, overlap: nat, dimension: nat, pixel: int)
    requires 1 <= n && 0 < dimension
    ensures (exists i: nat :: i < n && Holds(i, n, overlap, dimension, pixel))
      <==> 0 <= pixel < ScaleCeil(999, dimension)
  {
    if 0 <= pixel < ScaleCeil(999, dimension) {
      var i := PartHolding(n, overlap, dimension, pixel);
    }
    forall i: nat | i < n && Holds(i, n, overlap, dimension, pixel)
      ensures pixel < ScaleCeil(999, dimension)
    {
      var hi: nat := High(i, n, overlap);
      MulMonotone(hi, 999, dimension);
      CeilingMonotone(hi * dimension, 999 * dimension);
    }
  }

  lemma CeilingMonotone(a: nat, b: nat)
    requires a <= b
    ensures DivCeil(a, 1000) <= DivCeil(b, 1000)
  {
  }

  /** The last pixels are reached exactly when the image is less than 1000 pixels wide. */
  lemma FullWidthExactly(dimension: nat)
    ensures ScaleCeil(999, dimension) == dimension <==> dimension < 1000
  {
  }

  /** Every crop of an accepted grid is a nonempty rectangle inside the image. */
  lemma GridCropsAreProper(rows: nat, cols: nat, overlap: nat, row: nat, col: nat, width: nat, height: nat)
    requires Accepted(rows, cols, overlap) && row < rows && col < cols && width > 0 && height > 0
    ensures var r := RegionAt(row, col, rows, cols, overlap);
      && Valid(r)
      && ScaleFloor(r.xMin, width) < ScaleCeil(r.xMax, width) <= width
      && ScaleFloor(r.yMin, height) < ScaleCeil(r.yMax, height) <= height
  {
    RegionIsValid(row, col, rows, cols, overlap);
    var r := RegionAt(row, col, rows, cols, overlap);
    CropIsProper(r.xMin, r.xMax, width);
    CropIsProper(r.yMin, r.yMax, height);
  }

  ghost predicate InCrop(r: Region, width: nat, height: nat, px: int, py: int) {
    && 0 <= r.xMin && 0 <= r.xMax && ScaleFloor(r.xMin, width) <= px < ScaleCeil(r.xMax, width)
    && 0 <= r.yMin && 0 <= r.yMax && ScaleFloor(r.yMin, height) <= py < ScaleCeil(r.yMax, height)
  }

  /** Both axes at once: the crops of an accepted grid together cover exactly the pixels before the
      last thousandth in each direction. */
  lemma GridCropsCover(rows: nat, cols: nat, overlap: nat, width: nat, height: nat, px: int, py: int)
    requires Accepted(rows, cols, overlap) && width > 0 && height > 0
    ensures (exists row: nat, col: nat ::
               row < rows && col < cols && InCrop(RegionAt(row, col, rows, cols, overlap), width, height, px, py))
      <==> 0 <= px < ScaleCeil(999, width) && 0 <= py < ScaleCeil(999, height)
  {
    hide ScaleFloor, ScaleCeil, Low, High;
    CropsCover(cols, overlap, width, px);
    CropsCover(rows, overlap, height, py);
    forall row: nat, col: nat | row < rows && col < cols
      ensures InCrop(RegionAt(row, col, rows, cols, overlap), width, height, px, py)
        <==> Holds(col, cols, overlap, width, px) && Holds(row, rows, overlap, height, py)
    {
      RegionIsPositive(row, col, rows, cols, overlap);
    }
    if 0 <= px < ScaleCeil(999, width) && 0 <= py < ScaleCeil(999, height) {
      var col: nat :| col < cols && Holds(col, cols, overlap, width, px);
      var row: nat :| row < rows && Holds(row, rows, overlap, height, py);
      assert InCrop(RegionAt(row, col, rows, cols, overlap), width, height, px, py);
    }
  }

  lemma RegionIsPositive(row: nat, col: nat, rows: nat, cols: nat, overlap: nat)
    requires rows > 0 && cols > 0
    ensures 0 <= Low(col, cols, overlap) && 0 <= Low(row, rows, overlap)
    ensures 0 <= High(col, cols, overlap) && 0 <= High(row, rows, overlap)
  {
  }
}
