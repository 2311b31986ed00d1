/** What the menu's effects do to small and uniform images: the 3x3 box
    blur keeps a constant gray level, sharpening with that blur keeps it,
    the 5x5 box blur darkens it, a 1x1 kernel gives zeros, the gradient
    kernels start from zero, and on a 2x2 example the write-back into the
    shared rows makes the horizontal gradient of a flat image nonzero. */
module Effects {
  import opened Maybe
  import opened Rounding
  import opened Kernels
  import opened Borders
  import opened Correlation
  import PixelGrid

  /** Every pixel of a width-by-height image is c. */
  predicate Constant(pixels: seq<int>, width: nat, height: nat, c: int)
    requires width * height <= |pixels|
  {
    forall i :: 0 <= i < width * height ==> pixels[i] == c
  }

  /** The 3x3 box kernel weighs a gray level back to itself. */
  lemma SettleBox3(c: int)
    requires 0 <= c <= 255
    ensures IsKernel(BoxKernel(3)) && Settle(BoxKernel(3), c) == c
  {
    BoxTapWeights();
    RoundOfWhole(c);
  }

  /** Blurring an image of constant gray c (height >= 2, width >= 1, so the
      borders exist) with the 3x3 box gives the same image back: every pixel
      of the list and every cell of the returned rows is c. */
  lemma BoxBlurKeepsFlat(pixels: seq<int>, width: nat, height: nat, c: int)
    requires width * height <= |pixels| && height >= 2 && width >= 1
    requires Constant(pixels, width, height, c) && 0 <= c <= 255
    ensures IsKernel(BoxKernel(3))
    ensures Filter(pixels, width, height, BoxKernel(3)).Some?
    ensures var out := Filter(pixels, width, height, BoxKernel(3)).value;
      && |out.pixels| == width * height
      && (forall i :: 0 <= i < |out.pixels| ==> out.pixels[i] == c)
      && (forall j, t :: 0 <= j < |out.rows| && 0 <= t < |out.rows[j]| ==> out.rows[j][t] == c)
  {
    var k := BoxKernel(3);
    SettleBox3(c);
    FilterDefined(pixels, width, height, k);
    FilterUniform(pixels, width, height, k, c);
  }

  /** Sharpening an image of constant gray c with the 3x3 box leaves every
      pixel c: 2 * c - c. */
  lemma SharpenKeepsFlat(pixels: seq<int>, width: nat, height: nat, c: int)
    requires width * height <= |pixels| && height >= 2 && width >= 1
    requires Constant(pixels, width, height, c) && 0 <= c <= 255
    ensures IsKernel(BoxKernel(3))
    ensures Filter(pixels, width, height, BoxKernel(3)).Some?
    ensures |Filter(pixels, width, height, BoxKernel(3)).value.pixels| <= |pixels|
    ensures PixelGrid.Sharpen(pixels, Filter(pixels, width, height, BoxKernel(3)).value.pixels) == pixels
  {
    BoxBlurKeepsFlat(pixels, width, height, c);
    var blurred := Filter(pixels, width, height, BoxKernel(3)).value.pixels;
    var sharp := PixelGrid.Sharpen(pixels, blurred);
    forall i | 0 <= i < |pixels|
      ensures sharp[i] == pixels[i]
    {
      if i < |blurred| {
        assert blurred[i] == c && pixels[i] == c;
      }
    }
  }

  /** The 5x5 box kernel of radius 2 reads nine weights of 1/25 twice over,
      a total weight of 18/25: a white image (255) comes out with its first
      pixel 184, round(183.6), and not 255. */
  lemma LargeBoxDarkens(pixels: seq<int>, width: nat, height: nat)
    requires width * height <= |pixels| && height >= 2 && width >= 1
    requires Constant(pixels, width, height, 255)
    ensures IsKernel(BoxKernel(5))
    ensures Filter(pixels, width, height, BoxKernel(5)).Some?
    ensures |Filter(pixels, width, height, BoxKernel(5)).value.pixels| >= 1
    ensures Filter(pixels, width, height, BoxKernel(5)).value.pixels[0] == 184
  {
    var k := BoxKernel(5);
    BoxTapWeights();
    var sum := Repeat(Radius(k), 255.0 * TapWeight(k));
    assert sum == 255.0 * 18.0 / 25.0;
    assert RoundHalfEven(sum) == 184 by {
      assert sum == 183.6;
      assert sum.Floor == 183;
    }
    FilterDefined(pixels, width, height, k);
    FilterUniform(pixels, width, height, k, 255);
  }

  /** Both gradient kernels weigh their nine taps to zero, so over an image
      of constant gray the first pixel they emit is 0; a black image stays
      black everywhere. */
  lemma GradientsOfFlat(pixels: seq<int>, width: nat, height: nat, c: int)
    requires width * height <= |pixels| && height >= 2 && width >= 1
    requires Constant(pixels, width, height, c)
    ensures IsKernel(SobelX) && IsKernel(SobelY)
    ensures Filter(pixels, width, height, SobelX).Some? && Filter(pixels, width, height, SobelY).Some?
    ensures |Filter(pixels, width, height, SobelX).value.pixels| >= 1
    ensures |Filter(pixels, width, height, SobelY).value.pixels| >= 1
    ensures Filter(pixels, width, height, SobelX).value.pixels[0] == 0
    ensures Filter(pixels, width, height, SobelY).value.pixels[0] == 0
    ensures c == 0 ==> forall i :: 0 <= i < |Filter(pixels, width, height, SobelX).value.pixels| ==>
              Filter(pixels, width, height, SobelX).value.pixels[i] == 0
    ensures c == 0 ==> forall i :: 0 <= i < |Filter(pixels, width, height, SobelY).value.pixels| ==>
              Filter(pixels, width, height, SobelY).value.pixels[i] == 0
  {
    SobelShape();
    RoundOfWhole(0);
    assert Settle(SobelX, c) == 0 && Settle(SobelY, c) == 0;
    FilterDefined(pixels, width, height, SobelX);
    FilterDefined(pixels, width, height, SobelY);
    FilterUniform(pixels, width, height, SobelX, c);
    FilterUniform(pixels, width, height, SobelY, c);
  }

  /** A 1x1 kernel has radius 0, so the sum loop of use_kernel never runs:
      the kernel [[2]] over the 3x1 image 10, 20, 30 gives 0, 0, 0, not
      the doubled values, and height 1 does not crash for it. */
  lemma UnitKernelZeros()
    ensures IsKernel([[2.0]]) && Radius([[2.0]]) == 0
    ensures Filter([10, 20, 30], 3, 1, [[2.0]]).Some?
    ensures Filter([10, 20, 30], 3, 1, [[2.0]]).value.pixels == [0, 0, 0]
  {
    var k: Kernel := [[2.0]];
    assert IsKernel(k);
    FilterDefined([10, 20, 30], 3, 1, k);
    var q := Filter([10, 20, 30], 3, 1, k).value.pixels;
    assert |q| == 3 && q[0] == 0 && q[1] == 0 && q[2] == 0;
  }

  /** The padded rows of a 2x2 image of gray 100 for a 3x3 kernel: two
      copies of row 0, then the lists result[0] and result[1]. */
  lemma FlatBorders2()
    ensures var p := [100, 100, 100, 100];
      && AddBorders(Initial(Rows([100, 100, 100, 100], 2, 2)), 2, 1, 0, 0) == Some(Example(p, p))
      && Positions(Example(p, p), 2) == [2, 3]
  {
    FlatRows2();
    BordersLayout3([[100, 100], [100, 100]]);
    FlatLayout2();
    ExamplePositions([100, 100, 100, 100], [100, 100, 100, 100]);
  }

  /** The rows of the 2x2 image of gray 100. */
  lemma FlatRows2()
    ensures Rows([100, 100, 100, 100], 2, 2) == [[100, 100], [100, 100]]
  {
    var pixels := [100, 100, 100, 100];
    assert ImageRow(pixels, 2, 2, 0) == [100, 100];
    assert ImageRow(pixels, 2, 2, 1) == [100, 100];
  }

  /** Padding the rows of the 2x2 image of gray 100 for a 3x3 kernel. */
  lemma FlatLayout2()
    ensures forall j :: 0 <= j < 2 ==> |[[100, 100], [100, 100]][j]| > 0
    ensures var p := [100, 100, 100, 100];
      Layout3([[100, 100], [100, 100]]) == Example(p, p)
  {
    var rows := [[100, 100], [100, 100]];
    var p := [100, 100, 100, 100];
    var l0 := Example(p, p);
    assert Pad([100, 100]) == p;
    assert Layout3(rows)[0] == l0[0] && Layout3(rows)[1] == l0[1];
    assert Layout3(rows)[2] == l0[2] && Layout3(rows)[3] == l0[3];
  }

  /** In the example, result[0] is row 2 of aux and result[1] row 3. */
  lemma ExamplePositions(a: seq<int>, b: seq<int>)
    ensures Positions(Example(a, b), 2) == [2, 3]
  {
    var l0 := Example(a, b);
    assert l0[2].origin == Shared(0) && l0[3].origin == Shared(1);
    assert Find(l0, 0) == 2;
    assert Find(l0, 1) == 3;
  }

  /** use_kernel writes every output pixel back into the row lists it
      still reads from, so a gradient kernel over an image of constant gray
      does not give zero everywhere: on a 2x2 image of gray 100 the
      horizontal gradient emits 0, 0, then 200, 200, because the first
      output row wrote zeros into the shared row the second one reads. */
  lemma GradientFeedsBack()
    ensures IsKernel(SobelX)
    ensures Filter([100, 100, 100, 100], 2, 2, SobelX).Some?
    ensures Filter([100, 100, 100, 100], 2, 2, SobelX).value.pixels == [0, 0, 200, 200]
  {
    SobelShape();
    var k := SobelX;
    var p := [100, 100, 100, 100];
    FlatBorders2();
    FirstGradientRow();
    SecondGradientRow();
    FilterFrom([100, 100, 100, 100], 2, 2, k, Example(p, p),
               Pass(Example([0, 0, 100, 100], [200, 200, 100, 100]), [0, 0, 200, 200]));
  }

  /** aux of the 2x2 example with row 2 (the list result[0]) holding a and
      row 3 (the list result[1]) holding b, both padded from gray 100. */
  function Example(a: seq<int>, b: seq<int>): seq<Line>
  {
    var p := [100, 100, 100, 100];
    [Line(Copied, p), Line(Copied, p), Line(Shared(0), a), Line(Shared(1), b)]
  }

  /** Writing output pixel (x, y) of the example changes cell x of a
      (y == 0) or of b (y == 1). */
  lemma WriteExample(a: seq<int>, b: seq<int>, y: nat, x: nat, v: int)
    requires |a| == 4 && |b| == 4 && y < 2 && x < 2
    ensures WriteThrough(Example(a, b), [2, 3], y, x, v)
         == if y == 0 then Example(a[x := v], b) else Example(a, b[x := v])
  {
  }

  /** The horizontal gradient at output (x, y) of the example: the flat
      rows weigh to zero, so only a (weight 1 at y == 0, 2 at y == 1) and b
      (weight 1 at y == 1) count, each as its cell x + 2 minus its cell x. */
  lemma SobelExample(a: seq<int>, b: seq<int>, y: nat, x: nat)
    requires |a| == 4 && |b| == 4 && y < 2 && x < 2
    ensures IsKernel(SobelX) && Radius(SobelX) == 1
    ensures Stored(Example(a, b), SobelX, 1, y, x)
         == Clamp(RoundHalfEven(if y == 0 then (a[x + 2] - a[x]) as real
                                else (2 * (a[x + 2] - a[x]) + b[x + 2] - b[x]) as real))
  {
    SobelShape();
    var l := Example(a, b);
    assert InAux(l, SobelX, 1, y, x);
  }

  /** The first output row: the window over three flat rows weighs to 0 at
      both positions, and the zeros go into cells 0 and 1 of result[0]. */
  lemma FirstGradientRow()
    ensures var p := [100, 100, 100, 100];
      Walk(Valuation(SobelX, 1), Example(p, p), [2, 3], 2, 2, 0, 0, [])
      == Walk(Valuation(SobelX, 1), Example([0, 0, 100, 100], p), [2, 3], 2, 2, 1, 0, [0, 0])
  {
    FirstGradientLeft();
    FirstGradientRight();
  }

  /** Output pixel (0, 0) of the gradient example. */
  lemma FirstGradientLeft()
    ensures var p := [100, 100, 100, 100];
      Walk(Valuation(SobelX, 1), Example(p, p), [2, 3], 2, 2, 0, 0, [])
      == Walk(Valuation(SobelX, 1), Example([0, 100, 100, 100], p), [2, 3], 2, 2, 0, 1, [0])
  {
    var p := [100, 100, 100, 100];
    RoundOfWhole(0);
    SobelExample(p, p, 0, 0);
    KernelStep(SobelX, 1, Example(p, p), [2, 3], 2, 2, 0, 0, [], 0);
    WriteExample(p, p, 0, 0, 0);
    assert p[0 := 0] == [0, 100, 100, 100];
  }

  /** Output pixel (1, 0) of the gradient example, then the end of row 0. */
  lemma FirstGradientRight()
    ensures var p := [100, 100, 100, 100];
      Walk(Valuation(SobelX, 1), Example([0, 100, 100, 100], p), [2, 3], 2, 2, 0, 1, [0])
      == Walk(Valuation(SobelX, 1), Example([0, 0, 100, 100], p), [2, 3], 2, 2, 1, 0, [0, 0])
  {
    var p := [100, 100, 100, 100];
    var a := [0, 100, 100, 100];
    RoundOfWhole(0);
    SobelExample(a, p, 0, 1);
    KernelStep(SobelX, 1, Example(a, p), [2, 3], 2, 2, 0, 1, [0], 0);
    WriteExample(a, p, 0, 1, 0);
    assert a[1 := 0] == [0, 0, 100, 100];
    KernelRowEnd(SobelX, 1, Example([0, 0, 100, 100], p), [2, 3], 2, 2, 0, [0, 0]);
  }

  /** The second output row reads the zeros the first one wrote into
      result[0]: the window weighs to 200 at both positions. */
  lemma SecondGradientRow()
    ensures var p := [100, 100, 100, 100];
      Walk(Valuation(SobelX, 1), Example([0, 0, 100, 100], p), [2, 3], 2, 2, 1, 0, [0, 0])
      == Pass(Example([0, 0, 100, 100], [200, 200, 100, 100]), [0, 0, 200, 200])
  {
    SecondGradientLeft();
    SecondGradientRight();
  }

  /** Output pixel (0, 1) of the gradient example. */
  lemma SecondGradientLeft()
    ensures var p := [100, 100, 100, 100];
      Walk(Valuation(SobelX, 1), Example([0, 0, 100, 100], p), [2, 3], 2, 2, 1, 0, [0, 0])
      == Walk(Valuation(SobelX, 1), Example([0, 0, 100, 100], [200, 100, 100, 100]), [2, 3], 2, 2, 1, 1, [0, 0, 200])
  {
    var p := [100, 100, 100, 100];
    var a := [0, 0, 100, 100];
    RoundOfWhole(200);
    SobelExample(a, p, 1, 0);
    KernelStep(SobelX, 1, Example(a, p), [2, 3], 2, 2, 1, 0, [0, 0], 200);
    WriteExample(a, p, 1, 0, 200);
    assert p[0 := 200] == [200, 100, 100, 100];
  }

  /** Output pixel (1, 1) of the gradient example, which ends the walk. */
  lemma SecondGradientRight()
    ensures Walk(Valuation(SobelX, 1), Example([0, 0, 100, 100], [200, 100, 100, 100]), [2, 3], 2, 2, 1, 1, [0, 0, 200])
      == Pass(Example([0, 0, 100, 100], [200, 200, 100, 100]), [0, 0, 200, 200])
  {
    var a := [0, 0, 100, 100];
    var b := [200, 100, 100, 100];
    RoundOfWhole(200);
    SobelExample(a, b, 1, 1);
    KernelStep(SobelX, 1, Example(a, b), [2, 3], 2, 2, 1, 1, [0, 0, 200], 200);
    WriteExample(a, b, 1, 1, 200);
    assert b[1 := 200] == [200, 200, 100, 100];
    KernelRowEnd(SobelX, 1, Example(a, [200, 200, 100, 100]), [2, 3], 2, 2, 1, [0, 0, 200, 200]);
  }
}
