/** The first output row of use_kernel for a 3x3 kernel, compared with the
    textbook correlation of the image with edge replication. The first row
    writes only into columns that the windows after it no longer read, so
    the in-place writes do not show there. */
module FirstRow {
  import opened Maybe
  import opened Rounding
  import opened Kernels
  import opened Borders
  import opened Correlation
  import PixelGrid

  /** The pixel in row j and column t of the image, with both coordinates
      moved to the nearest position inside the image: edge replication. */
  function Gray(pixels: seq<int>, width: nat, height: nat, j: int, t: int): int
    requires width >= 1 && height >= 1 && width * height <= |pixels|
  {
    Rows(pixels, width, height)[Clip(j, height)][Clip(t, width)]
  }

  /** The 3x3 block of the image centred on (x, y), edge-replicated:
      entry [i][j] is the pixel at row y + i - 1 and column x + j - 1. */
  function Neighbourhood(pixels: seq<int>, width: nat, height: nat, y: int, x: int): (n: seq<seq<int>>)
    requires width >= 1 && height >= 1 && width * height <= |pixels|
    ensures |n| == 3 && forall i :: 0 <= i < 3 ==> |n[i]| == 3
  {
    seq(3, i requires 0 <= i < 3 => seq(3, j requires 0 <= j < 3 => Gray(pixels, width, height, y + i - 1, x + j - 1)))
  }

  /** Correlation of a 3x3 block with a 3x3 kernel: entry [i][j] weighed by
      k[i][j], without flipping the kernel. */
  function Correlate(n: seq<seq<int>>, k: Kernel): real
    requires |n| == 3 && forall i :: 0 <= i < 3 ==> |n[i]| == 3
    requires IsKernel(k) && |k| == 3
  {
    n[0][0] as real * k[0][0] + n[0][1] as real * k[0][1] + n[0][2] as real * k[0][2]
    + n[1][0] as real * k[1][0] + n[1][1] as real * k[1][1] + n[1][2] as real * k[1][2]
    + n[2][0] as real * k[2][0] + n[2][1] as real * k[2][1] + n[2][2] as real * k[2][2]
  }

  /** The textbook 3x3 correlation at output (x, y) with edge replication. */
  function Textbook(pixels: seq<int>, width: nat, height: nat, k: Kernel, y: int, x: int): real
    requires IsKernel(k) && |k| == 3
    requires width >= 1 && height >= 1 && width * height <= |pixels|
  {
    Correlate(Neighbourhood(pixels, width, height, y, x), k)
  }

  /** aux after some writes of output row 0: only cells before column x of
      row 1 (the list result[0]) differ from start. */
  predicate AgreeFrom(lines: seq<Line>, start: seq<Line>, x: nat)
  {
    && |lines| == |start| >= 2
    && (forall t :: 0 <= t < |lines| && t != 1 ==> lines[t] == start[t])
    && lines[1].origin == start[1].origin
    && |lines[1].cells| == |start[1].cells|
    && (forall c :: x <= c < |start[1].cells| ==> lines[1].cells[c] == start[1].cells[c])
  }

  /** Output row 0 from column x on, for any value rule that reads row 1
      of aux only at columns from its own column on: every value emitted is
      the one read from start, the aux before any write, because the writes
      so far hit columns below. */
  lemma {:induction false} FirstRowFrom(value: (seq<Line>, nat, nat) -> int, start: seq<Line>, lines: seq<Line>,
                                        where: seq<nat>, height: nat, width: nat, x: nat, out: seq<int>)
    requires |where| == height && height >= 1 && where[0] == 1 && x <= width
    requires |start| >= 2 && |start[1].cells| >= width && AgreeFrom(lines, start, x)
    requires forall l: seq<Line>, c: nat :: c < width && AgreeFrom(l, start, c) ==> value(l, 0, c) == value(start, 0, c)
    ensures |Walk(value, lines, where, height, width, 0, x, out).pixels| >= |out| + width - x
    ensures forall i :: |out| <= i < |out| + width - x ==>
              Walk(value, lines, where, height, width, 0, x, out).pixels[i] == value(start, 0, i - |out| + x)
    decreases width - x
  {
    if x < width {
      var v := value(lines, 0, x);
      var next := WriteThrough(lines, where, 0, x, v);
      AgreeWrite(start, lines, where, x, v);
      FirstRowFrom(value, start, next, where, height, width, x + 1, out + [v]);
      WalkCount(value, next, where, height, width, 0, x + 1, out + [v]);
      var p := Walk(value, next, where, height, width, 0, x + 1, out + [v]).pixels;
      assert Walk(value, lines, where, height, width, 0, x, out).pixels == p;
      assert p[|out|] == (p[..|out| + 1])[|out|];
      forall i | |out| < i < |out| + width - x
        ensures p[i] == value(start, 0, i - |out| + x)
      {
        assert i - |out + [v]| + (x + 1) == i - |out| + x;
      }
    } else {
      WalkCount(value, lines, where, height, width, 0, x, out);
    }
  }

  /** The window at column x of output row 0 reads rows 0 to 2 at columns
      x to x + 2, where lines agrees with start. */
  lemma AgreeWindow(k: Kernel, start: seq<Line>, lines: seq<Line>, x: nat)
    requires InAux(start, k, 1, 0, x) && AgreeFrom(lines, start, x)
    ensures InAux(lines, k, 1, 0, x)
    ensures Stored(lines, k, 1, 0, x) == Stored(start, k, 1, 0, x)
  {
    assert lines[0] == start[0] && lines[2] == start[2];
    assert At(lines, 1, x) == At(start, 1, x);
    assert At(lines, 1, x + 1) == At(start, 1, x + 1);
    assert At(lines, 1, x + 2) == At(start, 1, x + 2);
    assert Window(lines, k, 1, 0, x) == Window(start, k, 1, 0, x);
  }

  /** Writing output pixel (x, 0) changes cell x of row 1 only. */
  lemma AgreeWrite(start: seq<Line>, lines: seq<Line>, where: seq<nat>, x: nat, v: int)
    requires |where| >= 1 && where[0] == 1 && AgreeFrom(lines, start, x) && x < |start[1].cells|
    ensures AgreeFrom(WriteThrough(lines, where, 0, x, v), start, x + 1)
  {
    assert WriteThrough(lines, where, 0, x, v) == lines[1 := Line(lines[1].origin, lines[1].cells[x := v])];
  }

  /** The first three rows of the padded aux for a 3x3 kernel and height >= 3
      are edge-replicated image rows -1, 0 and 1. */
  lemma LayoutCell(pixels: seq<int>, width: nat, height: nat, i: nat, c: nat)
    requires width >= 1 && height >= 3 && width * height <= |pixels|
    requires i < 3 && c < width + 2
    ensures forall j :: 0 <= j < height ==> |Rows(pixels, width, height)[j]| > 0
    ensures c < |Layout3(Rows(pixels, width, height))[i].cells|
    ensures Layout3(Rows(pixels, width, height))[i].cells[c] == Gray(pixels, width, height, i - 1, c - 1)
  {
    var rows := Rows(pixels, width, height);
    var src := Source3(height, i);
    assert src == Clip(i - 1, height);
    PadAt(rows[src], c);
  }

  /** Columns x to x + 2 of rows 0 to 2 of the padded aux are the
      edge-replicated block of the image centred on (x, 0). */
  lemma LayoutBlock(pixels: seq<int>, width: nat, height: nat, x: nat)
    requires width >= 1 && height >= 3 && width * height <= |pixels| && x < width
    ensures forall j :: 0 <= j < height ==> |Rows(pixels, width, height)[j]| > 0
    ensures forall i, j :: 0 <= i < 3 && 0 <= j < 3 ==>
              x + j < |Layout3(Rows(pixels, width, height))[i].cells|
              && Layout3(Rows(pixels, width, height))[i].cells[x + j] == Neighbourhood(pixels, width, height, 0, x)[i][j]
  {
    LayoutCell(pixels, width, height, 0, 0);
    forall i, j | 0 <= i < 3 && 0 <= j < 3
      ensures x + j < |Layout3(Rows(pixels, width, height))[i].cells|
              && Layout3(Rows(pixels, width, height))[i].cells[x + j] == Neighbourhood(pixels, width, height, 0, x)[i][j]
    {
      LayoutCell(pixels, width, height, i, x + j);
    }
  }

  /** When rows 0 to 2 of aux hold the block n at columns x to x + 2, the
      window of use_kernel at column x of output row 0 is the correlation of
      n with k. */
  lemma WindowOfBlock(lines: seq<Line>, n: seq<seq<int>>, k: Kernel, x: nat)
    requires InAux(lines, k, 1, 0, x)
    requires |n| == 3 && forall i :: 0 <= i < 3 ==> |n[i]| == 3
    requires forall i, j :: 0 <= i < 3 && 0 <= j < 3 ==> lines[i].cells[x + j] == n[i][j]
    ensures Window(lines, k, 1, 0, x) == Correlate(n, k)
  {
    assert lines[0].cells[x] == n[0][0] && lines[0].cells[x + 1] == n[0][1] && lines[0].cells[x + 2] == n[0][2];
    assert lines[1].cells[x] == n[1][0] && lines[1].cells[x + 1] == n[1][1] && lines[1].cells[x + 2] == n[1][2];
    assert lines[2].cells[x] == n[2][0] && lines[2].cells[x + 1] == n[2][1] && lines[2].cells[x + 2] == n[2][2];
  }

  /** The value use_kernel stores at column x of output row 0 when rows 0
      to 2 of aux hold the block n there: the correlation of n with k,
      rounded half to even and clipped. */
  lemma StoredOfBlock(lines: seq<Line>, n: seq<seq<int>>, k: Kernel, x: nat)
    requires IsKernel(k) && Radius(k) == 1
    requires |lines| >= 3 && forall i :: 0 <= i < 3 ==> x + 2 < |lines[i].cells|
    requires |n| == 3 && forall i :: 0 <= i < 3 ==> |n[i]| == 3
    requires forall i, j :: 0 <= i < 3 && 0 <= j < 3 ==> lines[i].cells[x + j] == n[i][j]
    ensures Stored(lines, k, 1, 0, x) == Clamp(RoundHalfEven(Correlate(n, k)))
  {
    assert InAux(lines, k, 1, 0, x);
    WindowOfBlock(lines, n, k, x);
  }

  /** Before any write, the value use_kernel computes at column x of output
      row 0 is the textbook correlation there, rounded and clipped. */
  lemma StoredFirstRow(pixels: seq<int>, width: nat, height: nat, k: Kernel, x: nat)
    requires IsKernel(k) && Radius(k) == 1
    requires width >= 1 && height >= 3 && width * height <= |pixels| && x < width
    ensures forall j :: 0 <= j < height ==> |Rows(pixels, width, height)[j]| > 0
    ensures Stored(Layout3(Rows(pixels, width, height)), k, 1, 0, x)
            == Clamp(RoundHalfEven(Textbook(pixels, width, height, k, 0, x)))
  {
    LayoutBlock(pixels, width, height, x);
    StoredOfBlock(Layout3(Rows(pixels, width, height)), Neighbourhood(pixels, width, height, 0, x), k, x);
  }

  /** The value rule of use_kernel reads row 1 of aux, during output row 0,
      only from its own column on. */
  lemma FirstRowReads(pixels: seq<int>, width: nat, height: nat, k: Kernel, l: seq<Line>, c: nat)
    requires IsKernel(k) && Radius(k) == 1
    requires width >= 1 && height >= 3 && width * height <= |pixels| && c < width
    requires forall j :: 0 <= j < height ==> |Rows(pixels, width, height)[j]| > 0
    requires AgreeFrom(l, Layout3(Rows(pixels, width, height)), c)
    ensures Valuation(k, 1)(l, 0, c) == Valuation(k, 1)(Layout3(Rows(pixels, width, height)), 0, c)
  {
    LayoutBlock(pixels, width, height, c);
    AgreeWindow(k, Layout3(Rows(pixels, width, height)), l, c);
  }

  /** For a 3x3 kernel and an image of height >= 3 and width >= 1, the first
      width pixels use_kernel emits (output row 0) are the textbook
      correlation with edge replication, rounded half to even and clipped
      to [0, 255]: the row above is the inserted copy of row 0, the row below
      is row 1, and the columns repeat their edge cells. */
  lemma FirstRowCorrelation(pixels: seq<int>, width: nat, height: nat, k: Kernel)
    requires IsKernel(k) && Radius(k) == 1
    requires width >= 1 && height >= 3 && width * height <= |pixels|
    ensures Filter(pixels, width, height, k).Some?
    ensures |Filter(pixels, width, height, k).value.pixels| == width * height
    ensures forall x :: 0 <= x < width ==>
              x < |Filter(pixels, width, height, k).value.pixels|
              && Filter(pixels, width, height, k).value.pixels[x]
              == Clamp(RoundHalfEven(Textbook(pixels, width, height, k, 0, x)))
  {
    var rows := Rows(pixels, width, height);
    FilterDefined(pixels, width, height, k);
    LayoutCell(pixels, width, height, 0, 0);
    BordersLayout3(rows);
    var start := Layout3(rows);
    var where := Positions(start, height);
    assert start[1].origin == Shared(0);
    assert where[0] == 1;
    var value := Valuation(k, 1);
    forall l: seq<Line>, c: nat | c < width && AgreeFrom(l, start, c)
      ensures value(l, 0, c) == value(start, 0, c)
    {
      FirstRowReads(pixels, width, height, k, l, c);
    }
    FirstRowFrom(value, start, start, where, height, width, 0, []);
    var pass := Walk(value, start, where, height, width, 0, 0, []);
    FilterFrom(pixels, width, height, k, start, pass);
    assert width <= width * height;
    forall x | 0 <= x < width
      ensures pass.pixels[x] == Clamp(RoundHalfEven(Textbook(pixels, width, height, k, 0, x)))
    {
      assert pass.pixels[x] == value(start, 0, x - 0 + 0);
      StoredFirstRow(pixels, width, height, k, x);
    }
  }
}
