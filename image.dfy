/** The Image class: a grayscale image stored as a row-major list of pixels,
    and its effects. Lists that the source changes in place are fields that
    the methods reassign; the rows of the convolution pipeline are Row
    objects, so that the sharing between aux and result is the sharing of
    objects. */
module Images {
  import opened Maybe
  import opened Rounding
  import opened Kernels
  import opened PixelGrid
  import opened Borders
  import opened Correlation

  /** A row list of the convolution pipeline, changed in place by
      list.insert, list.append and item assignment. */
  class Row {
    var cells: seq<int>

    constructor (cells: seq<int>)
      ensures this.cells == cells
    {
      this.cells := cells;
    }

    /** The padding of one pass of add_extra_borders: the first cell inserted
        in front, then the last cell appended. */
    method PadEnds()
      requires |cells| > 0
      modifies this
      ensures cells == Pad(old(cells))
    {
      cells := [cells[0]] + cells;
      var lineSize := |cells|;
      cells := cells + [cells[lineSize - 1]];
    }

    /** Item assignment row[x] = v. */
    method SetCell(x: nat, v: int)
      requires x < |cells|
      modifies this
      ensures cells == old(cells)[x := v]
    {
      cells := cells[x := v];
    }
  }

  /** No object occurs twice. */
  predicate Distinct(rows: seq<Row>)
  {
    forall i, j :: 0 <= i < |rows| && 0 <= j < |rows| && i != j ==> rows[i] != rows[j]
  }

  /** Whether a row object of aux has the given origin: Shared(j) is the
      list result[j] itself, Copied is a list that is not one of result's. */
  predicate Mirrors(row: Row, result: seq<Row>, origin: Origin)
  {
    match origin
    case Shared(j) => j < |result| && result[j] == row
    case Copied => row !in result
  }

  /** The lists of rows as values. */
  ghost function Cells(rows: seq<Row>): (c: seq<seq<int>>)
    reads rows
    ensures |c| == |rows|
    ensures forall i :: 0 <= i < |rows| ==> c[i] == rows[i].cells
  {
    seq(|rows|, i requires 0 <= i < |rows| reads rows => rows[i].cells)
  }

  /** lines is aux seen as values: the same cells, and each origin says
      whether the row object is one of the lists of result. */
  ghost predicate Represents(aux: seq<Row>, result: seq<Row>, lines: seq<Line>)
    reads aux
  {
    |aux| == |lines|
    && forall i :: 0 <= i < |aux| ==> aux[i].cells == lines[i].cells && Mirrors(aux[i], result, lines[i].origin)
  }

  /** A list of distinct rows represents its own values, each row being
      the list result[j] at its own index j. */
  lemma RepresentsInitial(result: seq<Row>)
    ensures Represents(result, result, Initial(Cells(result)))
  {
  }

  /** The row of aux whose value has origin Shared(j) is the object result[j]. */
  lemma SharedIsResult(aux: seq<Row>, result: seq<Row>, lines: seq<Line>, i: nat, j: nat)
    requires Represents(aux, result, lines)
    requires i < |lines| && lines[i].origin == Shared(j)
    ensures j < |result| && aux[i] == result[j]
  {
  }

  /** After use_kernel, the lists result[j] hold the rows Filter keeps. */
  lemma FilterOfRows(pixels: seq<int>, width: nat, height: nat, k: Kernel, aux: seq<Row>, result: seq<Row>,
                     lines: seq<Line>, final: seq<Line>, imagePixelsList: seq<int>)
    requires IsKernel(k) && width * height <= |pixels| && |result| == height
    requires AddBorders(Initial(Rows(pixels, width, height)), height, Radius(k), 0, 0) == Some(lines)
    requires forall j :: 0 <= j < height ==>
               Positions(lines, height)[j] < |lines| && lines[Positions(lines, height)[j]].origin == Shared(j)
    requires Walk(Valuation(k, Radius(k)), lines, Positions(lines, height), height, width, 0, 0, [])
             == Pass(final, imagePixelsList)
    requires Represents(aux, result, final)
    ensures Filter(pixels, width, height, k) == Some(Filtered(Cells(result), imagePixelsList))
  {
    var where := Positions(lines, height);
    WalkShape(Valuation(k, Radius(k)), lines, where, height, width, 0, 0, []);
    FilterFrom(pixels, width, height, k, lines, Pass(final, imagePixelsList));
    forall j | 0 <= j < height
      ensures RowCells(final, where, j) == Cells(result)[j]
    {
      SharedIsResult(aux, result, final, where[j], j);
    }
    assert Cells(result) == ResultRows(final, where);
  }

  /** list.insert(lt, aux[lt].copy()): a new list with the cells of aux[lt]
      goes in at lt. */
  method InsertCopy(aux: seq<Row>, result: seq<Row>, ghost lines: seq<Line>, lt: nat)
    returns (next: seq<Row>, ghost nextLines: seq<Line>)
    requires lt < |aux|
    requires Represents(aux, result, lines) && Distinct(aux)
    ensures nextLines == Insert(lines, lt, Line(Copied, lines[lt].cells))
    ensures Represents(next, result, nextLines) && Distinct(next)
    ensures forall i :: 0 <= i < |next| ==> next[i] in aux || fresh(next[i])
  {
    var copy := new Row(aux[lt].cells);
    next := aux[..lt] + [copy] + aux[lt..];
    nextLines := Insert(lines, lt, Line(Copied, copy.cells));
    assert copy !in result && copy !in aux;
    forall i | 0 <= i < |next|
      ensures next[i].cells == nextLines[i].cells && Mirrors(next[i], result, nextLines[i].origin)
    {
      if i > lt {
        assert next[i] == aux[i - 1];
      }
    }
  }

  /** The loop over i in [1, extra] of use_kernel for output position
      (x, y) = (w - extra, h - extra): the nine products of aux rows h - extra, h and
      h + extra against kernel rows and columns meio - extra, meio and
      meio + extra, added onto value extra times. */
  method Accumulate(aux: seq<Row>, ghost lines: seq<Line>, k: Kernel, extra: nat, h: nat, w: nat,
                    ghost y: nat, ghost x: nat)
    returns (value: real)
    requires |aux| == |lines| && forall i :: 0 <= i < |aux| ==> aux[i].cells == lines[i].cells
    requires h == y + extra && w == x + extra && InAux(lines, k, extra, y, x)
    ensures value == Repeat(extra, Window(lines, k, extra, y, x))
  {
    ghost var window := Window(lines, k, extra, y, x);
    value := 0.0;
    var meio := |k| / 2;
    var i := 1;
    while i <= extra
      invariant 1 <= i <= extra + 1
      invariant value == Repeat(i - 1, window)
    {
      ghost var start := value;
      value := value + aux[h - extra].cells[w - extra] as real * k[meio - extra][meio - extra];
      value := value + aux[h - extra].cells[w] as real * k[meio - extra][meio];
      value := value + aux[h - extra].cells[w + extra] as real * k[meio - extra][meio + extra];
      value := value + aux[h].cells[w - extra] as real * k[meio][meio - extra];
      value := value + aux[h].cells[w] as real * k[meio][meio];
      value := value + aux[h].cells[w + extra] as real * k[meio][meio + extra];
      value := value + aux[h + extra].cells[w - extra] as real * k[meio + extra][meio - extra];
      value := value + aux[h + extra].cells[w] as real * k[meio + extra][meio];
      value := value + aux[h + extra].cells[w + extra] as real * k[meio + extra][meio + extra];
      assert value == start + window;
      i := i + 1;
    }
  }

  class Image {
    const width: nat
    const height: nat
    var pixels: seq<int>

    /** Image(width, height, pixels): the fields are the arguments. */
    constructor (width: nat, height: nat, pixels: seq<int>)
      ensures this.width == width && this.height == height && this.pixels == pixels
    {
      this.width := width;
      this.height := height;
      this.pixels := pixels;
    }

    /** Image.new: a blank image of width * height zeros. */
    static method New(width: nat, height: nat) returns (img: Image)
      ensures fresh(img)
      ensures img.width == width && img.height == height
      ensures |img.pixels| == width * height
      ensures forall i :: 0 <= i < |img.pixels| ==> img.pixels[i] == 0
    {
      img := new Image(width, height, seq(width * height, _ => 0));
    }

    /** get_pixel: the list entry at x + width * y, with Python's reading
        of a negative index from the end. */
    function GetPixel(x: int, y: int): int
      reads this
      requires -|pixels| <= Flat(x, y, width) < |pixels|
    {
      PixelAt(pixels, width, x, y)
    }

    /** set_pixel: the list entry at x + width * y becomes c. */
    method SetPixel(x: int, y: int, c: int)
      requires -|pixels| <= Flat(x, y, width) < |pixels|
      modifies this
      ensures pixels == WithPixel(old(pixels), width, x, y, c)
      ensures GetPixel(x, y) == c
    {
      pixels := pixels[Slot(Flat(x, y, width), |pixels|) := c];
    }

    /** __eq__: same height, same width and equal pixel lists. */
    predicate Equals(other: Image)
      reads this, other
    {
      height == other.height && width == other.width && pixels == other.pixels
    }

    /** apply_per_pixel: a new image of the same size whose pixel (x, y) is
        func of pixel (x, y) of this one, filled column by column. This image
        is left as it was. */
    method ApplyPerPixel(func: int -> int) returns (result: Image)
      requires width * height <= |pixels|
      ensures fresh(result)
      ensures result.width == width && result.height == height
      ensures result.pixels == MapPixels(func, pixels[..width * height])
    {
      result := New(width, height);
      PaintStart(func, pixels, width, height);
      var x := 0;
      while x < result.width
        invariant 0 <= x <= width
        invariant result.width == width && result.height == height
        invariant result.pixels == Painted(func, pixels, width, height, x, 0)
      {
        var y := 0;
        while y < result.height
          invariant 0 <= y <= height
          invariant result.width == width && result.height == height
          invariant result.pixels == Painted(func, pixels, width, height, x, y)
        {
          PaintStep(func, pixels, width, height, x, y);
          var color := GetPixel(x, y);
          var newcolor := func(color);
          result.SetPixel(x, y, newcolor);
          y := y + 1;
        }
        PaintColumnEnd(func, pixels, width, height, x);
        x := x + 1;
      }
      PaintDone(func, pixels, width, height);
    }

    /** add_extra_borders: aux starts as a shallow copy of result, so it
        holds the very row lists of result; each pass of the loops copies a
        row into aux at lt == 0 and at lt == height - 1 and pads row lt of aux
        with its first and last cells, which pads a row of result in place
        when aux[lt] is one. The values aux ends with are AddBorders of the
        rows result held, lines; the copies are new lists. */
    method AddExtraBorders(k: Kernel, result: seq<Row>, ghost rows: seq<seq<int>>)
      returns (aux: seq<Row>, extra: nat, ghost lines: seq<Line>)
      requires IsKernel(k)
      requires |result| == height && Distinct(result) && Cells(result) == rows
      requires AddBorders(Initial(rows), height, Radius(k), 0, 0).Some?
      modifies result
      ensures extra == Radius(k)
      ensures AddBorders(Initial(rows), height, extra, 0, 0) == Some(lines)
      ensures Represents(aux, result, lines) && Distinct(aux)
      ensures forall i :: 0 <= i < |aux| ==> aux[i] in result || fresh(aux[i])
    {
      RepresentsInitial(result);
      var tamanho := |k[0]|;
      extra := tamanho / 2;
      aux, lines := BorderRows(result, result, Initial(rows), extra);
    }

    /** The outer loop of add_extra_borders: height + 2 * extra rounds of
        BorderRow, from the rows aux to their bordered copies. */
    method BorderRows(aux: seq<Row>, result: seq<Row>, ghost lines: seq<Line>, extra: nat)
      returns (next: seq<Row>, ghost nextLines: seq<Line>)
      requires AddBorders(lines, height, extra, 0, 0).Some?
      requires Represents(aux, result, lines) && Distinct(aux)
      modifies aux
      ensures AddBorders(lines, height, extra, 0, 0) == Some(nextLines)
      ensures Represents(next, result, nextLines) && Distinct(next)
      ensures forall i :: 0 <= i < |next| ==> next[i] in aux || fresh(next[i])
    {
      ghost var target := AddBorders(lines, height, extra, 0, 0);
      next, nextLines := aux, lines;
      var lt := 0;
      while lt < height + 2 * extra
        invariant AddBorders(nextLines, height, extra, lt, 0) == target
        invariant Represents(next, result, nextLines) && Distinct(next)
        invariant forall i :: 0 <= i < |next| ==> next[i] in aux || fresh(next[i])
        decreases height + 2 * extra - lt
      {
        next, nextLines := BorderRow(next, result, nextLines, lt, extra);
        lt := lt + 1;
      }
    }

    /** The inner loop of add_extra_borders at outer index lt: extra passes
        of BorderPass. */
    method BorderRow(aux: seq<Row>, result: seq<Row>, ghost lines: seq<Line>, lt: nat, extra: nat)
      returns (next: seq<Row>, ghost nextLines: seq<Line>)
      requires lt < height + 2 * extra && AddBorders(lines, height, extra, lt, 0).Some?
      requires Represents(aux, result, lines) && Distinct(aux)
      modifies aux
      ensures AddBorders(lines, height, extra, lt, 0) == AddBorders(nextLines, height, extra, lt + 1, 0)
      ensures Represents(next, result, nextLines) && Distinct(next)
      ensures forall i :: 0 <= i < |next| ==> next[i] in aux || fresh(next[i])
    {
      ghost var target := AddBorders(lines, height, extra, lt, 0);
      next, nextLines := aux, lines;
      var ks := 0;
      while ks < extra
        invariant AddBorders(nextLines, height, extra, lt, ks) == target
        invariant Represents(next, result, nextLines) && Distinct(next)
        invariant forall i :: 0 <= i < |next| ==> next[i] in aux || fresh(next[i])
        decreases extra - ks
      {
        next, nextLines := BorderPass(next, result, nextLines, lt);
        ks := ks + 1;
      }
    }

    /** One pass of the inner loop of add_extra_borders at outer index lt:
        the copy inserted at lt == 0 and lt == height - 1, then the padding of
        aux[lt] in place. The values of aux move by one BorderStep. */
    method BorderPass(aux: seq<Row>, result: seq<Row>, ghost lines: seq<Line>, lt: nat)
      returns (next: seq<Row>, ghost nextLines: seq<Line>)
      requires BorderStep(lines, height, lt).Some?
      requires Represents(aux, result, lines) && Distinct(aux)
      modifies aux
      ensures nextLines == BorderStep(lines, height, lt).value
      ensures Represents(next, result, nextLines) && Distinct(next)
      ensures forall i :: 0 <= i < |next| ==> next[i] in aux || fresh(next[i])
    {
      next, nextLines := aux, lines;
      if lt == 0 || lt == height - 1 {
        next, nextLines := InsertCopy(next, result, nextLines, lt);
      }
      ghost var before := nextLines[lt].cells;
      ghost var padded := nextLines[lt := Line(nextLines[lt].origin, Pad(before))];
      var row := next[lt];
      row.PadEnds();
      forall i | 0 <= i < |next|
        ensures next[i].cells == padded[i].cells && Mirrors(next[i], result, padded[i].origin)
      {
        if i != lt {
          assert next[i] != row;
        }
      }
      nextLines := padded;
    }

    /** The value use_kernel computes at (h, w) for output (x, y) =
        (w - extra, h - extra): the nine taps summed extra times, rounded half to even,
        clipped to [0, 255]. */
    method KernelValue(k: Kernel, aux: seq<Row>, extra: nat, h: nat, w: nat,
                       ghost lines: seq<Line>, ghost y: nat, ghost x: nat)
      returns (pixel: int)
      requires IsKernel(k) && extra == Radius(k)
      requires h == y + extra && w == x + extra && y < height && x < width
      requires |aux| == |lines| && forall i :: 0 <= i < |aux| ==> aux[i].cells == lines[i].cells
      requires WellShaped(lines, height, width, extra)
      ensures pixel == Stored(lines, k, extra, y, x)
      ensures 0 <= pixel <= 255
    {
      WellShapedInAux(lines, k, height, width, extra, y, x);
      var value := Accumulate(aux, lines, k, extra, h, w, y, x);
      pixel := RoundHalfEven(value);
      if pixel > 255 {
        pixel := 255;
      } else if pixel < 0 {
        pixel := 0;
      }
    }

    /** result[h - extra][w - extra] = pixel, seen in aux: the row of aux
        at where[h - extra] is that very list. */
    method WriteResult(aux: seq<Row>, result: seq<Row>, extra: nat, h: nat, w: nat, pixel: int,
                       ghost lines: seq<Line>, ghost where: seq<nat>, ghost y: nat, ghost x: nat)
      returns (ghost next: seq<Line>)
      requires |result| == height && |where| == height
      requires h == y + extra && w == x + extra && y < height && x < width
      requires Represents(aux, result, lines) && Distinct(aux) && WellShaped(lines, height, width, extra)
      requires forall j :: 0 <= j < height ==> where[j] < |lines| && lines[where[j]].origin == Shared(j)
      modifies result
      ensures next == WriteThrough(lines, where, y, x, pixel)
      ensures Represents(aux, result, next) && WellShaped(next, height, width, extra)
      ensures forall j :: 0 <= j < height ==> where[j] < |next| && next[where[j]].origin == Shared(j)
    {
      SharedIsResult(aux, result, lines, where[y], y);
      result[h - extra].SetCell(w - extra, pixel);
      next := WriteThrough(lines, where, y, x, pixel);
      forall i | 0 <= i < |aux|
        ensures aux[i].cells == next[i].cells && Mirrors(aux[i], result, next[i].origin)
      {
        if i != where[y] {
          assert aux[i] != result[y];
        }
      }
    }

    /** One pass of the inner loop of use_kernel at (h, w): the value of
        output pixel (x, y) is written into result and appended to the list. */
    method UseKernelPixel(k: Kernel, aux: seq<Row>, result: seq<Row>, extra: nat, h: nat, w: nat, out: seq<int>,
                          ghost lines: seq<Line>, ghost where: seq<nat>, ghost y: nat, ghost x: nat)
      returns (imagePixelsList: seq<int>, ghost next: seq<Line>)
      requires IsKernel(k) && extra == Radius(k)
      requires |result| == height && |where| == height
      requires h == y + extra && w == x + extra && y < height && x < width
      requires Represents(aux, result, lines) && Distinct(aux) && WellShaped(lines, height, width, extra)
      requires forall j :: 0 <= j < height ==> where[j] < |lines| && lines[where[j]].origin == Shared(j)
      modifies result
      ensures Walk(Valuation(k, extra), lines, where, height, width, y, x, out)
           == Walk(Valuation(k, extra), next, where, height, width, y, x + 1, imagePixelsList)
      ensures Represents(aux, result, next) && WellShaped(next, height, width, extra)
      ensures forall j :: 0 <= j < height ==> where[j] < |next| && next[where[j]].origin == Shared(j)
    {
      var pixel := KernelValue(k, aux, extra, h, w, lines, y, x);
      KernelStep(k, extra, lines, where, height, width, y, x, out, pixel);
      next := WriteResult(aux, result, extra, h, w, pixel, lines, where, y, x);
      imagePixelsList := out + [pixel];
    }

    /** The inner loop of use_kernel at h: output row y = h - extra, left to
        right, each pixel appended to the list. */
    method UseKernelRow(k: Kernel, aux: seq<Row>, result: seq<Row>, extra: nat, h: nat, out: seq<int>,
                        ghost lines: seq<Line>, ghost where: seq<nat>, ghost y: nat)
      returns (imagePixelsList: seq<int>, ghost final: seq<Line>)
      requires IsKernel(k) && extra == Radius(k)
      requires |result| == height && |where| == height && h == y + extra && y < height
      requires Represents(aux, result, lines) && Distinct(aux) && WellShaped(lines, height, width, extra)
      requires forall j :: 0 <= j < height ==> where[j] < |lines| && lines[where[j]].origin == Shared(j)
      modifies result
      ensures Walk(Valuation(k, extra), lines, where, height, width, y, 0, out)
           == Walk(Valuation(k, extra), final, where, height, width, y + 1, 0, imagePixelsList)
      ensures Represents(aux, result, final) && WellShaped(final, height, width, extra)
      ensures forall j :: 0 <= j < height ==> where[j] < |final| && final[where[j]].origin == Shared(j)
    {
      ghost var target := Walk(Valuation(k, extra), lines, where, height, width, y, 0, out);
      final := lines;
      imagePixelsList := out;
      var w := extra;
      ghost var x: nat := 0;
      while w < width + extra
        invariant w == x + extra && x <= width
        invariant Walk(Valuation(k, extra), final, where, height, width, y, x, imagePixelsList) == target
        invariant Represents(aux, result, final) && WellShaped(final, height, width, extra)
        invariant forall j :: 0 <= j < height ==> where[j] < |final| && final[where[j]].origin == Shared(j)
      {
        imagePixelsList, final := UseKernelPixel(k, aux, result, extra, h, w, imagePixelsList, final, where, y, x);
        w, x := w + 1, x + 1;
      }
      KernelRowEnd(k, extra, final, where, height, width, y, imagePixelsList);
    }

    /** use_kernel: output row by row, left to right, each value the nine
        taps summed extra times (Accumulate), rounded half to even, clipped
        to [0, 255], written into result (and so into aux, which shares the
        row lists of result) and appended to the pixel list. The values of
        aux and the pixel list are those of Walk over the values aux held. */
    method UseKernel(k: Kernel, aux: seq<Row>, result: seq<Row>, extra: nat,
                     ghost lines: seq<Line>, ghost where: seq<nat>)
      returns (rows: seq<Row>, imagePixelsList: seq<int>, ghost final: seq<Line>)
      requires IsKernel(k) && extra == Radius(k)
      requires |result| == height && |where| == height
      requires Represents(aux, result, lines) && Distinct(aux) && WellShaped(lines, height, width, extra)
      requires forall j :: 0 <= j < height ==> where[j] < |lines| && lines[where[j]].origin == Shared(j)
      modifies result
      ensures rows == result
      ensures Walk(Valuation(k, extra), lines, where, height, width, 0, 0, []) == Pass(final, imagePixelsList)
      ensures Represents(aux, result, final)
    {
      ghost var target := Walk(Valuation(k, extra), lines, where, height, width, 0, 0, []);
      final := lines;
      imagePixelsList := [];
      var h := extra;
      ghost var y: nat := 0;
      while h < height + extra
        invariant h == y + extra && y <= height
        invariant Walk(Valuation(k, extra), final, where, height, width, y, 0, imagePixelsList) == target
        invariant Represents(aux, result, final) && WellShaped(final, height, width, extra)
        invariant forall j :: 0 <= j < height ==> where[j] < |final| && final[where[j]].origin == Shared(j)
      {
        imagePixelsList, final := UseKernelRow(k, aux, result, extra, h, imagePixelsList, final, where, y);
        h, y := h + 1, y + 1;
      }
      rows := result;
    }

    /** The first part of apply_kernel_per_pixel: result is built as height
        new row lists of width zeros, then filled with the pixels in row-major
        order, a running count indexing the pixel list. */
    method PixelRows() returns (result: seq<Row>)
      requires width * height <= |pixels|
      ensures Distinct(result) && forall j :: 0 <= j < |result| ==> fresh(result[j])
      ensures Cells(result) == Rows(pixels, width, height)
    {
      result := [];
      while |result| < height
        invariant |result| <= height && Distinct(result)
        invariant forall j :: 0 <= j < |result| ==> fresh(result[j]) && |result[j].cells| == width
      {
        var row := new Row(seq(width, _ => 0));
        result := result + [row];
      }
      var count := 0;
      var h := 0;
      while h < height
        invariant h <= height && count == width * h
        invariant forall j :: 0 <= j < height ==> |result[j].cells| == width
        invariant forall j :: 0 <= j < h ==> result[j].cells == ImageRow(pixels, width, height, j)
      {
        count := FillRow(result[h], h, count);
        assert forall j :: 0 <= j < height && j != h ==> result[j] != result[h];
        assert width * (h + 1) == width * h + width;
        h := h + 1;
      }
    }

    /** The inner loop of the copy in apply_kernel_per_pixel: row h of the
        image, read from the pixel list from index count = width * h on. */
    method FillRow(row: Row, h: nat, start: nat) returns (count: nat)
      requires width * height <= |pixels| && h < height && start == width * h
      requires |row.cells| == width
      modifies row
      ensures row.cells == ImageRow(pixels, width, height, h)
      ensures count == start + width
    {
      RowInside(width, height, h);
      count := start;
      var w := 0;
      while w < width
        invariant w <= width && count == width * h + w && |row.cells| == width
        invariant forall t :: 0 <= t < w ==> row.cells[t] == pixels[width * h + t]
      {
        row.SetCell(w, pixels[count]);
        count := count + 1;
        w := w + 1;
      }
    }

    /** apply_kernel_per_pixel: the rows of this image as new lists
        (PixelRows), then add_extra_borders and use_kernel. The returned Image
        holds the pixel list of use_kernel and result holds its rows after
        use_kernel wrote into them: together they are Filter of this image.
        The source raises an IndexError unless the kernel is 1x1 or the image
        has at least two rows of at least one pixel (FilterDefined). */
    method ApplyKernelPerPixel(k: Kernel) returns (image: Image, result: seq<Row>)
      requires IsKernel(k) && width * height <= |pixels|
      requires Radius(k) == 0 || (height >= 2 && width >= 1)
      ensures fresh(image) && image.width == width && image.height == height
      ensures forall j :: 0 <= j < |result| ==> fresh(result[j])
      ensures Filter(pixels, width, height, k) == Some(Filtered(Cells(result), image.pixels))
    {
      result := PixelRows();
      ghost var rows := Rows(pixels, width, height);
      assert Cells(result) == rows;
      ghost var r := Radius(k);
      BordersDefined(rows, width, r);
      BordersTrack(rows, r);
      var aux, extra;
      ghost var lines, final;
      aux, extra, lines := AddExtraBorders(k, result, rows);
      ghost var where := Positions(lines, height);
      var imagePixelsList;
      result, imagePixelsList, final := UseKernel(k, aux, result, extra, lines, where);
      image := new Image(width, height, imagePixelsList);
      FilterOfRows(pixels, width, height, k, aux, result, lines, final, imagePixelsList);
    }

    /** blurred: the Image of apply_kernel_per_pixel. */
    method Blurred(k: Kernel) returns (image: Image)
      requires IsKernel(k) && width * height <= |pixels|
      requires Radius(k) == 0 || (height >= 2 && width >= 1)
      ensures fresh(image) && image.width == width && image.height == height
      ensures Filter(pixels, width, height, k).Some?
      ensures image.pixels == Filter(pixels, width, height, k).value.pixels
    {
      var result;
      image, result := ApplyKernelPerPixel(k);
    }

    /** sharpened: blur with k, then replace each of the first len(blurred)
        pixels of this image, in place, by round(2 * pixel - blurred pixel).
        The source reads the module-level image there, which is this image
        when the menu calls it; nothing is clipped, and this image itself is
        returned. */
    method Sharpened(k: Kernel) returns (sharp: Image)
      requires IsKernel(k) && width * height <= |pixels|
      requires Radius(k) == 0 || (height >= 2 && width >= 1)
      modifies this
      ensures sharp == this
      ensures Filter(old(pixels), width, height, k).Some?
      ensures |Filter(old(pixels), width, height, k).value.pixels| <= |old(pixels)|
      ensures pixels == Sharpen(old(pixels), Filter(old(pixels), width, height, k).value.pixels)
    {
      FilterDefined(pixels, width, height, k);
      var blurred := Blurred(k);
      SharpenWith(blurred.pixels);
      sharp := this;
    }

    /** The loop of sharpened: for i over the blurred list, pixel i becomes
        round(2 * pixel i - blurred i), which is that integer. */
    method SharpenWith(blurred: seq<int>)
      requires |blurred| <= |pixels|
      modifies this
      ensures pixels == Sharpen(old(pixels), blurred)
    {
      ghost var start := pixels;
      var i := 0;
      while i < |blurred|
        invariant i <= |blurred| <= |start| == |pixels|
        invariant pixels == Sharpen(start, blurred[..i])
      {
        SharpenStep(start, blurred, i);
        RoundOfWhole(pixels[i] * 2 - blurred[i]);
        pixels := pixels[i := RoundHalfEven((pixels[i] * 2 - blurred[i]) as real)];
        i := i + 1;
      }
      assert blurred[..i] == blurred;
    }

    /** edges: the rows result of apply_kernel_per_pixel, as lists of lists
        (not an Image). Correlation.FilterRows says what those rows hold. */
    method Edges(k: Kernel) returns (rows: seq<Row>)
      requires IsKernel(k) && width * height <= |pixels|
      requires Radius(k) == 0 || (height >= 2 && width >= 1)
      ensures forall j :: 0 <= j < |rows| ==> fresh(rows[j])
      ensures Filter(pixels, width, height, k).Some?
      ensures Cells(rows) == Filter(pixels, width, height, k).value.rows
    {
      var image;
      image, rows := ApplyKernelPerPixel(k);
    }

    /** inverted: apply_per_pixel with c -> 256 - c. */
    method Inverted() returns (image: Image)
      requires width * height <= |pixels|
      ensures fresh(image)
      ensures image.width == width && image.height == height
      ensures image.pixels == MapPixels(Invert, pixels[..width * height])
    {
      image := ApplyPerPixel(Invert);
    }
  }

  /** Inverting twice gives an image equal to the original under __eq__,
      for an image whose list holds exactly width * height pixels. */
  method InvertTwiceEquals(img: Image) returns (twice: Image)
    requires |img.pixels| == img.width * img.height
    ensures twice.Equals(img)
  {
    var once := img.Inverted();
    twice := once.Inverted();
    InvertTwice(img.pixels);
    assert img.pixels[..img.width * img.height] == img.pixels;
  }
}
