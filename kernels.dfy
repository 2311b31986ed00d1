/** Kernels as the script builds them: lists of rows of weights. */
module Kernels {

  type Kernel = seq<seq<real>>

  /** A square kernel of odd size. An even size s >= 2 makes use_kernel index
      row or column s of the kernel (an IndexError), so the effects are only
      defined for this shape. */
  predicate IsKernel(k: Kernel)
  {
    |k| % 2 == 1 && forall i :: 0 <= i < |k| ==> |k[i]| == |k|
  }

  /** extra_kernels: half the length of the first kernel row, rounded down. */
  function Radius(k: Kernel): (r: nat)
    requires IsKernel(k)
    ensures |k| == 2 * r + 1
  {
    |k[0]| / 2
  }

  /** The sum of the nine weights use_kernel reads: rows and columns 0, r and
      2r of the kernel. Only these nine ever enter a sum. */
  function TapWeight(k: Kernel): real
    requires IsKernel(k)
  {
    var r := Radius(k);
    k[0][0] + k[0][r] + k[0][2 * r]
    + k[r][0] + k[r][r] + k[r][2 * r]
    + k[2 * r][0] + k[2 * r][r] + k[2 * r][2 * r]
  }

  /** The uniform kernel the menu builds for blurring and sharpening: size rows
      of size weights 1/(size*size), as exact reals. */
  function BoxKernel(size: nat): (k: Kernel)
    requires size > 0
    ensures |k| == size
    ensures forall i :: 0 <= i < size ==> |k[i]| == size
    ensures forall i, j :: 0 <= i < size && 0 <= j < size ==> k[i][j] * ((size * size) as real) == 1.0
  {
    var key := 1.0 / ((size * size) as real);
    seq(size, _ => seq(size, _ => key))
  }

  /** The horizontal gradient kernel of the edge effect. */
  const SobelX: Kernel := [[-1.0, 0.0, 1.0], [-2.0, 0.0, 2.0], [-1.0, 0.0, 1.0]]

  /** The vertical gradient kernel of the edge effect. */
  const SobelY: Kernel := [[1.0, 2.0, 1.0], [0.0, 0.0, 0.0], [-1.0, -2.0, -1.0]]

  /** The 3x3 box kernel weighs its nine taps to exactly one, so a uniform
      image is a fixed point; the 5x5 one reads nine weights of 1/25 twice
      over (radius 2), a total weight of 18/25. */
  lemma BoxTapWeights()
    ensures IsKernel(BoxKernel(3)) && Radius(BoxKernel(3)) == 1
    ensures TapWeight(BoxKernel(3)) == 1.0
    ensures IsKernel(BoxKernel(5)) && Radius(BoxKernel(5)) == 2
    ensures (Radius(BoxKernel(5)) as real) * TapWeight(BoxKernel(5)) == 18.0 / 25.0
  {
    var k3 := BoxKernel(3);
    assert forall i, j :: 0 <= i < 3 && 0 <= j < 3 ==> k3[i][j] == 1.0 / 9.0;
    var k5 := BoxKernel(5);
    assert forall i, j :: 0 <= i < 5 && 0 <= j < 5 ==> k5[i][j] == 1.0 / 25.0;
  }

  /** Both gradient kernels are square of size three and weigh to zero. */
  lemma SobelShape()
    ensures IsKernel(SobelX) && Radius(SobelX) == 1 && TapWeight(SobelX) == 0.0
    ensures IsKernel(SobelY) && Radius(SobelY) == 1 && TapWeight(SobelY) == 0.0
  {
  }
}
