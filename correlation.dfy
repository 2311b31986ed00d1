/** use_kernel and apply_kernel_per_pixel on values: the correlation that
    walks the padded rows, writes each result back into result (and so into
    the shared rows of aux) and collects the flat pixel list. */
module Correlation {
  import opened Maybe
  import opened Rounding
  import opened Kernels
  import opened Borders
  import PixelGrid

  /** Cell c of row i of aux, as a real. */
  function At(lines: seq<Line>, i: nat, c: nat): real
    requires i < |lines| && c < |lines[i].cells|
  {
    lines[i].cells[c] as real
  }

  /** The nine products use_kernel adds for output pixel (x, y), in its
      order: rows y, y + r, y + 2r of aux (above, same, below), columns x,
      x + r, x + 2r, against kernel rows and columns 0, r and 2r. */
  function Window(lines: seq<Line>, k: Kernel, r: nat, y: nat, x: nat): real
    requires IsKernel(k) && Radius(k) == r
    requires y + 2 * r < |lines|
    requires x + 2 * r < |lines[y].cells|
    requires x + 2 * r < |lines[y + r].cells|
    requires x + 2 * r < |lines[y + 2 * r].cells|
  {
    At(lines, y, x) * k[0][0] + At(lines, y, x + r) * k[0][r] + At(lines, y, x + 2 * r) * k[0][2 * r]
    + At(lines, y + r, x) * k[r][0] + At(lines, y + r, x + r) * k[r][r] + At(lines, y + r, x + 2 * r) * k[r][2 * r]
    + At(lines, y + 2 * r, x) * k[2 * r][0] + At(lines, y + 2 * r, x + r) * k[2 * r][r]
    + At(lines, y + 2 * r, x + 2 * r) * k[2 * r][2 * r]
  }

  /** w added n times onto 0: the loop over i in [1, n] adding the same
      window each pass. */
  function Repeat(n: nat, w: real): (s: real)
    ensures s == (n as real) * w
  {
    if n == 0 then 0.0 else Repeat(n - 1, w) + w
  }

  /** The value use_kernel stores for (x, y): the window summed r times over
      (the loop over i in [1, r]), rounded half to even and clipped. */
  function Pixel(lines: seq<Line>, k: Kernel, r: nat, y: nat, x: nat): (v: int)
    requires IsKernel(k) && Radius(k) == r
    requires y + 2 * r < |lines|
    requires x + 2 * r < |lines[y].cells|
    requires x + 2 * r < |lines[y + r].cells|
    requires x + 2 * r < |lines[y + 2 * r].cells|
    ensures 0 <= v <= 255
  {
    Clamp(RoundHalfEven(Repeat(r, Window(lines, k, r, y, x))))
  }

  /** The bounds Pixel needs: rows y, y + r and y + 2r of aux exist and
      reach column x + 2r. */
  predicate InAux(lines: seq<Line>, k: Kernel, r: nat, y: nat, x: nat)
  {
    && IsKernel(k) && Radius(k) == r
    && y + 2 * r < |lines|
    && x + 2 * r < |lines[y].cells|
    && x + 2 * r < |lines[y + r].cells|
    && x + 2 * r < |lines[y + 2 * r].cells|
  }

  /** Pixel wherever it is defined; 0 elsewhere, which a well-shaped aux
      never reaches (WellShapedInAux). */
  function Stored(lines: seq<Line>, k: Kernel, r: nat, y: nat, x: nat): (v: int)
    ensures 0 <= v <= 255
  {
    if InAux(lines, k, r, y, x) then Pixel(lines, k, r, y, x) else 0
  }

  /** The value rule of use_kernel for kernel k of radius r, as a function
      of the current aux and the output position. */
  function Valuation(k: Kernel, r: nat): (seq<Line>, nat, nat) -> int
  {
    (lines: seq<Line>, y: nat, x: nat) => Stored(lines, k, r, y, x)
  }

  /** result[y][x] = v as aux sees it: the row of aux at where[y], which is
      the list result[y] itself, has cell x replaced; copies and the other
      rows keep theirs. */
  function WriteThrough(lines: seq<Line>, where: seq<nat>, y: nat, x: nat, v: int): (next: seq<Line>)
    requires y < |where|
    ensures |next| == |lines|
  {
    var i := where[y];
    if i < |lines| && x < |lines[i].cells|
    then lines[i := Line(lines[i].origin, lines[i].cells[x := v])]
    else lines
  }

  /** The state use_kernel returns: aux (seen through its rows) and the flat
      pixel list image_pixels_list. */
  datatype Pass = Pass(lines: seq<Line>, pixels: seq<int>)

  /** The two outer loops of use_kernel from output position (x, y) on, with
      out the pixels emitted so far: row by row, left to right, each value
      given by value from the current aux and then written through result.
      where[j] is the index in aux of the list result[j]. */
  function Walk(value: (seq<Line>, nat, nat) -> int, lines: seq<Line>, where: seq<nat>,
                height: nat, width: nat, y: nat, x: nat, out: seq<int>): Pass
    requires |where| == height && y <= height && x <= width
    decreases height - y, width - x
  {
    if y == height then Pass(lines, out)
    else if x == width then Walk(value, lines, where, height, width, y + 1, 0, out)
    else
      var v := value(lines, y, x);
      Walk(value, WriteThrough(lines, where, y, x, v), where, height, width, y, x + 1, out + [v])
  }

  /** One step of the loops of use_kernel: the stored value at (x, y) is
      emitted and written through, and the walk goes on from the next
      column. */
  lemma KernelStep(k: Kernel, r: nat, lines: seq<Line>, where: seq<nat>,
                   height: nat, width: nat, y: nat, x: nat, out: seq<int>, pixel: int)
    requires |where| == height && y < height && x < width
    requires pixel == Stored(lines, k, r, y, x)
    ensures Walk(Valuation(k, r), lines, where, height, width, y, x, out)
         == Walk(Valuation(k, r), WriteThrough(lines, where, y, x, pixel), where, height, width, y, x + 1, out + [pixel])
  {
  }

  /** The end of a row of the loops of use_kernel is the start of the next. */
  lemma KernelRowEnd(k: Kernel, r: nat, lines: seq<Line>, where: seq<nat>,
                     height: nat, width: nat, y: nat, out: seq<int>)
    requires |where| == height && y < height
    ensures Walk(Valuation(k, r), lines, where, height, width, y, width, out)
         == Walk(Valuation(k, r), lines, where, height, width, y + 1, 0, out)
  {
  }

  /** Row j of the image as a list: the slice of pixels that the first loop
      of apply_kernel_per_pixel copies into result[j]. */
  function ImageRow(pixels: seq<int>, width: nat, height: nat, j: nat): (row: seq<int>)
    requires width * height <= |pixels| && j < height
    ensures |row| == width
  {
    RowInside(width, height, j);
    pixels[width * j .. width * j + width]
  }

  /** Row j of a width-by-height image ends inside its first width * height
      pixels. */
  lemma RowInside(width: nat, height: nat, j: nat)
    requires j < height
    ensures width * j + width <= width * height
  {
    PixelGrid.MulMonotone(width, j + 1, height);
    assert width * (j + 1) == width * j + width;
  }

  /** The row lists result holds before add_extra_borders. */
  function Rows(pixels: seq<int>, width: nat, height: nat): (rows: seq<seq<int>>)
    requires width * height <= |pixels|
    ensures |rows| == height && Rectangular(rows, width)
  {
    seq(height, j requires 0 <= j < height => ImageRow(pixels, width, height, j))
  }

  /** The cells of the list result[j], read at its index in aux. */
  function RowCells(lines: seq<Line>, where: seq<nat>, j: nat): seq<int>
    requires j < |where|
  {
    if where[j] < |lines| then lines[where[j]].cells else []
  }

  /** The rows of result as aux holds them, in order. */
  function ResultRows(lines: seq<Line>, where: seq<nat>): (rows: seq<seq<int>>)
    ensures |rows| == |where|
    ensures forall j :: 0 <= j < |where| ==> rows[j] == RowCells(lines, where, j)
  {
    seq(|where|, j requires 0 <= j < |where| => RowCells(lines, where, j))
  }

  /** What apply_kernel_per_pixel returns: the rows of result after
      use_kernel has written into them, and the pixel list of the new Image. */
  datatype Filtered = Filtered(rows: seq<seq<int>>, pixels: seq<int>)

  /** apply_kernel_per_pixel: None when add_extra_borders raises an
      IndexError. */
  function Filter(pixels: seq<int>, width: nat, height: nat, k: Kernel): Option<Filtered>
    requires IsKernel(k) && width * height <= |pixels|
  {
    var r := Radius(k);
    var rows := Rows(pixels, width, height);
    match AddBorders(Initial(rows), height, r, 0, 0)
    case None => None
    case Some(padded) =>
      var where := Positions(padded, height);
      var pass := Walk(Valuation(k, r), padded, where, height, width, 0, 0, []);
      Some(Filtered(ResultRows(pass.lines, where), pass.pixels))
  }

  /** Filter once the padded rows and the pass over them are known. */
  lemma FilterFrom(pixels: seq<int>, width: nat, height: nat, k: Kernel, padded: seq<Line>, pass: Pass)
    requires IsKernel(k) && width * height <= |pixels|
    requires AddBorders(Initial(Rows(pixels, width, height)), height, Radius(k), 0, 0) == Some(padded)
    requires Walk(Valuation(k, Radius(k)), padded, Positions(padded, height), height, width, 0, 0, []) == pass
    ensures Filter(pixels, width, height, k)
         == Some(Filtered(ResultRows(pass.lines, Positions(padded, height)), pass.pixels))
  {
  }

  // ---------------------------------------------------------------------
  // What the loops emit.

  /** How many pixels the loops of use_kernel still emit from (x, y),
      counted the way the loops advance. */
  function Remaining(height: nat, width: nat, y: nat, x: nat): nat
    requires y <= height && x <= width
    decreases height - y, width - x
  {
    if y == height then 0
    else if x == width then Remaining(height, width, y + 1, 0)
    else 1 + Remaining(height, width, y, x + 1)
  }

  /** The count in closed form: the rest of row y, then whole rows. */
  lemma {:induction false} RemainingClosed(height: nat, width: nat, y: nat, x: nat)
    requires y <= height && x <= width
    ensures y < height ==> Remaining(height, width, y, x) == (height - y) * width - x
    ensures y == height ==> Remaining(height, width, y, x) == 0
    decreases height - y, width - x
  {
    if y == height {
    } else if x == width {
      RemainingClosed(height, width, y + 1, 0);
      var m := height - (y + 1);
      assert height - y == m + 1;
      assert (m + 1) * width == m * width + width;
    } else {
      RemainingClosed(height, width, y, x + 1);
    }
  }

  /** From (x, y) on, the loops append exactly the remaining number of
      pixels and keep what was emitted before. */
  lemma {:induction false} WalkCount(value: (seq<Line>, nat, nat) -> int, lines: seq<Line>, where: seq<nat>,
                                     height: nat, width: nat, y: nat, x: nat, out: seq<int>)
    requires |where| == height && y <= height && x <= width
    ensures |Walk(value, lines, where, height, width, y, x, out).pixels| == |out| + Remaining(height, width, y, x)
    ensures Walk(value, lines, where, height, width, y, x, out).pixels[..|out|] == out
    decreases height - y, width - x
  {
    if y == height {
    } else if x == width {
      WalkCount(value, lines, where, height, width, y + 1, 0, out);
    } else {
      var v := value(lines, y, x);
      var next := WriteThrough(lines, where, y, x, v);
      WalkCount(value, next, where, height, width, y, x + 1, out + [v]);
      var p := Walk(value, next, where, height, width, y, x + 1, out + [v]).pixels;
      assert p[..|out|] == (p[..|out| + 1])[..|out|];
    }
  }

  /** When every value lies in [lo, hi], so does every pixel the loops
      append from (x, y) on. */
  lemma {:induction false} WalkRange(value: (seq<Line>, nat, nat) -> int, lines: seq<Line>, where: seq<nat>,
                                     height: nat, width: nat, y: nat, x: nat, out: seq<int>, lo: int, hi: int)
    requires |where| == height && y <= height && x <= width
    requires forall l, j, i :: lo <= value(l, j, i) <= hi
    ensures forall i :: |out| <= i < |Walk(value, lines, where, height, width, y, x, out).pixels| ==>
              lo <= Walk(value, lines, where, height, width, y, x, out).pixels[i] <= hi
    decreases height - y, width - x
  {
    if y == height {
    } else if x == width {
      WalkRange(value, lines, where, height, width, y + 1, 0, out, lo, hi);
    } else {
      var v := value(lines, y, x);
      var next := WriteThrough(lines, where, y, x, v);
      WalkRange(value, next, where, height, width, y, x + 1, out + [v], lo, hi);
      WalkCount(value, next, where, height, width, y, x + 1, out + [v]);
      var p := Walk(value, next, where, height, width, y, x + 1, out + [v]).pixels;
      assert p[|out|] == (p[..|out| + 1])[|out|];
    }
  }

  /** With r == 0 the sum loop runs zero times and every stored value is 0. */
  lemma StoredRadiusZero(k: Kernel)
    requires IsKernel(k) && Radius(k) == 0
    ensures forall l, j, i :: Valuation(k, 0)(l, j, i) == 0
  {
    assert RoundHalfEven(0.0) == 0;
  }

  /** apply_kernel_per_pixel returns exactly when add_extra_borders does: for
      a 1x1 kernel, or an image of height >= 2 and width >= 1. Its pixel list
      then has width * height entries, all in [0, 255]; a 1x1 kernel gives
      all zeros, because the sum loop runs zero times. */
  lemma FilterDefined(pixels: seq<int>, width: nat, height: nat, k: Kernel)
    requires IsKernel(k) && width * height <= |pixels|
    ensures Filter(pixels, width, height, k).Some? <==> (Radius(k) == 0 || (height >= 2 && width >= 1))
    ensures Filter(pixels, width, height, k).Some? ==>
              var out := Filter(pixels, width, height, k).value;
              && |out.pixels| == width * height
              && |out.rows| == height
              && (forall i :: 0 <= i < |out.pixels| ==> 0 <= out.pixels[i] <= 255)
              && (Radius(k) == 0 ==> forall i :: 0 <= i < |out.pixels| ==> out.pixels[i] == 0)
  {
    var r := Radius(k);
    var rows := Rows(pixels, width, height);
    BordersDefined(rows, width, r);
    var padded := AddBorders(Initial(rows), height, r, 0, 0);
    if padded.Some? {
      var where := Positions(padded.value, height);
      WalkCount(Valuation(k, r), padded.value, where, height, width, 0, 0, []);
      WalkRange(Valuation(k, r), padded.value, where, height, width, 0, 0, [], 0, 255);
      if r == 0 {
        StoredRadiusZero(k);
        WalkRange(Valuation(k, r), padded.value, where, height, width, 0, 0, [], 0, 0);
      }
      RemainingClosed(height, width, 0, 0);
    }
  }

  /** The rows the loops of use_kernel leave behind keep the length n that
      every list of result had in aux. */
  lemma PassRowLengths(value: (seq<Line>, nat, nat) -> int, lines: seq<Line>, where: seq<nat>,
                       height: nat, width: nat, n: nat, pass: Pass)
    requires |where| == height
    requires forall j :: 0 <= j < height ==> where[j] < |lines| && |lines[where[j]].cells| == n
    requires pass == Walk(value, lines, where, height, width, 0, 0, [])
    ensures forall y :: 0 <= y < height ==> |ResultRows(pass.lines, where)[y]| == n
  {
    WalkShape(value, lines, where, height, width, 0, 0, []);
    forall y | 0 <= y < height
      ensures |ResultRows(pass.lines, where)[y]| == n
    {
      assert |pass.lines[where[y]].cells| == |lines[where[y]].cells|;
    }
  }

  /** Cell x of row list y of what apply_kernel_per_pixel returns is pixel
      width * y + x of the new Image. */
  predicate RowHoldsPixel(out: Filtered, width: nat, y: nat, x: nat)
    requires y < |out.rows|
  {
    width * y + x < |out.pixels| && x < |out.rows[y]| && out.rows[y][x] == out.pixels[width * y + x]
  }

  /** When every list of result sits at its own index of aux and has at
      least width cells, the loops of use_kernel leave in the first width
      cells of each the pixels emitted for its row, in order. */
  lemma PassRows(value: (seq<Line>, nat, nat) -> int, lines: seq<Line>, where: seq<nat>,
                 height: nat, width: nat, pass: Pass)
    requires |where| == height && Apart(where)
    requires forall j :: 0 <= j < height ==> where[j] < |lines| && width <= |lines[where[j]].cells|
    requires pass == Walk(value, lines, where, height, width, 0, 0, [])
    ensures forall y, x :: 0 <= y < height && 0 <= x < width ==>
              RowHoldsPixel(Filtered(ResultRows(pass.lines, where), pass.pixels), width, y, x)
  {
    forall y, x | 0 <= y < height && 0 <= x < width
      ensures RowHoldsPixel(Filtered(ResultRows(pass.lines, where), pass.pixels), width, y, x)
    {
      WalkWrites(value, lines, where, height, width, 0, 0, [], y, x);
    }
  }

  /** After add_extra_borders the lists of result sit at distinct indices of
      aux, each width + 2r cells long. */
  lemma PaddedApart(rows: seq<seq<int>>, width: nat, r: nat)
    requires Rectangular(rows, width)
    requires AddBorders(Initial(rows), |rows|, r, 0, 0).Some?
    ensures var aux := AddBorders(Initial(rows), |rows|, r, 0, 0).value;
      var where := Positions(aux, |rows|);
      && Apart(where)
      && forall j :: 0 <= j < |rows| ==> where[j] < |aux| && |aux[where[j]].cells| == width + 2 * r
  {
    var aux := AddBorders(Initial(rows), |rows|, r, 0, 0).value;
    var where := Positions(aux, |rows|);
    BordersTrack(rows, r);
    BordersPadded(rows, width, r);
    forall a, b | 0 <= a < b < |rows|
      ensures where[a] != where[b]
    {
      assert aux[where[a]].origin == Shared(a);
    }
  }

  /** The row lists apply_kernel_per_pixel returns are width + 2r cells
      long: add_extra_borders padded each of them r times through aux. */
  lemma FilterRowLengths(pixels: seq<int>, width: nat, height: nat, k: Kernel)
    requires IsKernel(k) && width * height <= |pixels|
    requires Filter(pixels, width, height, k).Some?
    ensures |Filter(pixels, width, height, k).value.rows| == height
    ensures forall y :: 0 <= y < height ==> |Filter(pixels, width, height, k).value.rows[y]| == width + 2 * Radius(k)
  {
    var r := Radius(k);
    var rows := Rows(pixels, width, height);
    var padded := AddBorders(Initial(rows), height, r, 0, 0).value;
    var where := Positions(padded, height);
    var pass := Walk(Valuation(k, r), padded, where, height, width, 0, 0, []);
    PaddedApart(rows, width, r);
    PassRowLengths(Valuation(k, r), padded, where, height, width, width + 2 * r, pass);
    FilterFrom(pixels, width, height, k, padded, pass);
  }

  /** What apply_kernel_per_pixel leaves in the rows of result: cell x of
      row list y is pixel width * y + x of the new Image, because use_kernel
      wrote each pixel there as it emitted it, and no later write reaches
      that cell. */
  lemma FilterRows(pixels: seq<int>, width: nat, height: nat, k: Kernel)
    requires IsKernel(k) && width * height <= |pixels|
    requires Filter(pixels, width, height, k).Some?
    ensures |Filter(pixels, width, height, k).value.rows| == height
    ensures forall y, x :: 0 <= y < height && 0 <= x < width ==>
              RowHoldsPixel(Filter(pixels, width, height, k).value, width, y, x)
  {
    var r := Radius(k);
    var rows := Rows(pixels, width, height);
    var padded := AddBorders(Initial(rows), height, r, 0, 0).value;
    var where := Positions(padded, height);
    var pass := Walk(Valuation(k, r), padded, where, height, width, 0, 0, []);
    PaddedApart(rows, width, r);
    PassRows(Valuation(k, r), padded, where, height, width, pass);
    FilterFrom(pixels, width, height, k, padded, pass);
  }

  // ---------------------------------------------------------------------
  // What the writes leave alone, and uniform images.

  /** Two versions of aux with the same rows in the same places: same
      origins and same row lengths, cells aside. */
  predicate SameShape(a: seq<Line>, b: seq<Line>)
  {
    |a| == |b| && forall i :: 0 <= i < |a| ==> a[i].origin == b[i].origin && |a[i].cells| == |b[i].cells|
  }

  /** The writes of use_kernel change cells only: aux keeps its rows, their
      origins and their lengths. */
  lemma {:induction false} WalkShape(value: (seq<Line>, nat, nat) -> int, lines: seq<Line>, where: seq<nat>,
                                     height: nat, width: nat, y: nat, x: nat, out: seq<int>)
    requires |where| == height && y <= height && x <= width
    ensures SameShape(lines, Walk(value, lines, where, height, width, y, x, out).lines)
    decreases height - y, width - x
  {
    if y == height {
    } else if x == width {
      WalkShape(value, lines, where, height, width, y + 1, 0, out);
    } else {
      var v := value(lines, y, x);
      var next := WriteThrough(lines, where, y, x, v);
      WalkShape(value, next, where, height, width, y, x + 1, out + [v]);
    }
  }

  /** The lists of result sit at different indices of aux. */
  predicate Apart(where: seq<nat>)
  {
    forall a, b :: 0 <= a < b < |where| ==> where[a] != where[b]
  }

  /** Every write from (x, y) on is to a later position, so cell t of the
      list result[j] at an earlier position keeps its value. */
  lemma {:induction false} WalkKeeps(value: (seq<Line>, nat, nat) -> int, lines: seq<Line>, where: seq<nat>,
                                     height: nat, width: nat, y: nat, x: nat, out: seq<int>, j: nat, t: nat)
    requires |where| == height && y <= height && x <= width && Apart(where)
    requires j < height && (j < y || (j == y && t < x))
    requires where[j] < |lines| && t < |lines[where[j]].cells|
    ensures var after := Walk(value, lines, where, height, width, y, x, out).lines;
      where[j] < |after| && t < |after[where[j]].cells| && after[where[j]].cells[t] == lines[where[j]].cells[t]
    decreases height - y, width - x
  {
    if y == height {
    } else if x == width {
      WalkKeeps(value, lines, where, height, width, y + 1, 0, out, j, t);
    } else {
      var v := value(lines, y, x);
      var next := WriteThrough(lines, where, y, x, v);
      assert j < y ==> where[j] != where[y];
      assert next[where[j]].cells[t] == lines[where[j]].cells[t];
      WalkKeeps(value, next, where, height, width, y, x + 1, out + [v], j, t);
    }
  }

  /** The pixel the loops emit for (t, j) is the one written into cell t of
      the list result[j], and no later write changes it: when the walk ends,
      that cell holds pixel number width * j + t of the list. */
  lemma {:induction false} WalkWrites(value: (seq<Line>, nat, nat) -> int, lines: seq<Line>, where: seq<nat>,
                                      height: nat, width: nat, y: nat, x: nat, out: seq<int>, j: nat, t: nat)
    requires |where| == height && y <= height && x <= width && Apart(where)
    requires j < height && t < width && (y < j || (y == j && x <= t))
    requires where[j] < |lines| && width <= |lines[where[j]].cells|
    requires |out| == width * y + x
    ensures var pass := Walk(value, lines, where, height, width, y, x, out);
      && width * j + t < |pass.pixels|
      && where[j] < |pass.lines| && t < |pass.lines[where[j]].cells|
      && pass.lines[where[j]].cells[t] == pass.pixels[width * j + t]
    decreases height - y, width - x
  {
    if x == width {
      assert width * (y + 1) == width * y + width;
      WalkWrites(value, lines, where, height, width, y + 1, 0, out, j, t);
    } else {
      var v := value(lines, y, x);
      var next := WriteThrough(lines, where, y, x, v);
      assert |next[where[j]].cells| == |lines[where[j]].cells|;
      if y == j && x == t {
        assert next[where[j]].cells[t] == v;
        WalkKeeps(value, next, where, height, width, y, x + 1, out + [v], j, t);
        WalkCount(value, next, where, height, width, y, x + 1, out + [v]);
        var p := Walk(value, next, where, height, width, y, x + 1, out + [v]).pixels;
        assert p[|out|] == (p[..|out| + 1])[|out|];
      } else {
        WalkWrites(value, next, where, height, width, y, x + 1, out + [v], j, t);
      }
    }
  }

  /** The first pixel the loops emit is the value at (0, 0) of the aux that
      add_extra_borders produced. */
  lemma WalkFirst(value: (seq<Line>, nat, nat) -> int, lines: seq<Line>, where: seq<nat>, height: nat, width: nat)
    requires |where| == height && height >= 1 && width >= 1
    ensures |Walk(value, lines, where, height, width, 0, 0, []).pixels| >= 1
    ensures Walk(value, lines, where, height, width, 0, 0, []).pixels[0] == value(lines, 0, 0)
  {
    var v := value(lines, 0, 0);
    var next := WriteThrough(lines, where, 0, 0, v);
    assert [] + [v] == [v];
    assert Walk(value, lines, where, height, width, 0, 0, []) == Walk(value, next, where, height, width, 0, 1, [v]);
    WalkCount(value, next, where, height, width, 0, 1, [v]);
  }

  /** When every value read from a uniform, well-shaped aux is c, a uniform
      aux of gray c stays uniform and every pixel emitted is c. */
  lemma {:induction false} WalkUniform(value: (seq<Line>, nat, nat) -> int, lines: seq<Line>, where: seq<nat>,
                                       height: nat, width: nat, r: nat, y: nat, x: nat, out: seq<int>, c: int)
    requires |where| == height && y <= height && x <= width
    requires WellShaped(lines, height, width, r) && Uniform(lines, c)
    requires forall l: seq<Line>, j: nat, i: nat :: Uniform(l, c) && WellShaped(l, height, width, r) && j < height && i < width ==>
               value(l, j, i) == c
    ensures Uniform(Walk(value, lines, where, height, width, y, x, out).lines, c)
    ensures forall i :: |out| <= i < |Walk(value, lines, where, height, width, y, x, out).pixels| ==>
              Walk(value, lines, where, height, width, y, x, out).pixels[i] == c
    decreases height - y, width - x
  {
    if y == height {
    } else if x == width {
      WalkUniform(value, lines, where, height, width, r, y + 1, 0, out, c);
    } else {
      var v := value(lines, y, x);
      var next := WriteThrough(lines, where, y, x, v);
      assert Uniform(next, c) && WellShaped(next, height, width, r);
      WalkUniform(value, next, where, height, width, r, y, x + 1, out + [v], c);
      WalkCount(value, next, where, height, width, y, x + 1, out + [v]);
      var p := Walk(value, next, where, height, width, y, x + 1, out + [v]).pixels;
      assert p[|out|] == (p[..|out| + 1])[|out|];
    }
  }

  /** The value use_kernel stores over a region of constant gray c: the nine
      taps weigh c by TapWeight(k), summed r times, rounded and clipped. */
  function Settle(k: Kernel, c: int): int
    requires IsKernel(k)
  {
    Clamp(RoundHalfEven(Repeat(Radius(k), (c as real) * TapWeight(k))))
  }

  /** Over a uniform aux of gray c the nine products add up to c times the
      tap weight. */
  lemma WindowUniform(lines: seq<Line>, k: Kernel, r: nat, y: nat, x: nat, c: int)
    requires InAux(lines, k, r, y, x) && Uniform(lines, c)
    ensures Window(lines, k, r, y, x) == (c as real) * TapWeight(k)
  {
    var g := c as real;
    assert Window(lines, k, r, y, x)
        == g * k[0][0] + g * k[0][r] + g * k[0][2 * r]
         + g * k[r][0] + g * k[r][r] + g * k[r][2 * r]
         + g * k[2 * r][0] + g * k[2 * r][r] + g * k[2 * r][2 * r];
  }

  /** Over a uniform aux, the stored value is Settle. */
  lemma StoredUniform(lines: seq<Line>, k: Kernel, r: nat, y: nat, x: nat, c: int)
    requires InAux(lines, k, r, y, x) && Uniform(lines, c)
    ensures Stored(lines, k, r, y, x) == Settle(k, c)
  {
    WindowUniform(lines, k, r, y, x, c);
  }

  /** Inside a well-shaped aux every output position reads within bounds. */
  lemma WellShapedInAux(lines: seq<Line>, k: Kernel, height: nat, width: nat, r: nat, y: nat, x: nat)
    requires IsKernel(k) && Radius(k) == r
    requires WellShaped(lines, height, width, r) && y < height && x < width
    ensures InAux(lines, k, r, y, x)
  {
  }

  /** Cell t of row j is the pixel at (t, j), which lies inside the image. */
  lemma ImageRowAt(pixels: seq<int>, width: nat, height: nat, j: nat, t: nat)
    requires width * height <= |pixels| && j < height && t < width
    ensures 0 <= PixelGrid.Flat(t, j, width) < width * height
    ensures ImageRow(pixels, width, height, j)[t] == pixels[PixelGrid.Flat(t, j, width)]
  {
    RowInside(width, height, j);
    PixelGrid.MulMonotone(width, 0, j);
  }

  /** The rows of an image whose pixels are all c, and so the aux built
      from them, are uniform. */
  lemma RowsUniform(pixels: seq<int>, width: nat, height: nat, c: int)
    requires width * height <= |pixels|
    requires forall i :: 0 <= i < width * height ==> pixels[i] == c
    ensures Uniform(Initial(Rows(pixels, width, height)), c)
  {
    var rows := Rows(pixels, width, height);
    var lines := Initial(rows);
    forall i, t | 0 <= i < |lines| && 0 <= t < |lines[i].cells|
      ensures lines[i].cells[t] == c
    {
      ImageRowAt(pixels, width, height, i, t);
    }
  }

  /** For an image of constant gray c, where apply_kernel_per_pixel returns:
      the first pixel is Settle(k, c); and when Settle(k, c) == c every pixel
      is c and so is every cell of the returned rows, borders included. */
  lemma FilterUniform(pixels: seq<int>, width: nat, height: nat, k: Kernel, c: int)
    requires IsKernel(k) && width * height <= |pixels|
    requires forall i :: 0 <= i < width * height ==> pixels[i] == c
    requires Filter(pixels, width, height, k).Some?
    ensures height >= 1 && width >= 1 ==>
              |Filter(pixels, width, height, k).value.pixels| >= 1
              && Filter(pixels, width, height, k).value.pixels[0] == Settle(k, c)
    ensures Settle(k, c) == c ==>
              var out := Filter(pixels, width, height, k).value;
              && (forall i :: 0 <= i < |out.pixels| ==> out.pixels[i] == c)
              && (forall j, t :: 0 <= j < |out.rows| && 0 <= t < |out.rows[j]| ==> out.rows[j][t] == c)
  {
    var r := Radius(k);
    var rows := Rows(pixels, width, height);
    BordersDefined(rows, width, r);
    RowsUniform(pixels, width, height, c);
    var padded := AddBorders(Initial(rows), height, r, 0, 0).value;
    BordersUniformFrom(Initial(rows), height, r, 0, 0, c);
    var where := Positions(padded, height);
    var value := Valuation(k, r);
    if height >= 1 && width >= 1 {
      WalkFirst(value, padded, where, height, width);
      WellShapedInAux(padded, k, height, width, r, 0, 0);
      StoredUniform(padded, k, r, 0, 0, c);
    }
    if Settle(k, c) == c {
      forall l: seq<Line>, j: nat, i: nat | Uniform(l, c) && WellShaped(l, height, width, r) && j < height && i < width
        ensures value(l, j, i) == c
      {
        WellShapedInAux(l, k, height, width, r, j, i);
        StoredUniform(l, k, r, j, i, c);
      }
      WalkUniform(value, padded, where, height, width, r, 0, 0, [], c);
    }
  }
}
