/** Pairwise image-fidelity metrics of the photocmp package: mean squared
    error (MSE) and peak signal-to-noise ratio (PSNR).

    An image is modelled as the flat sequence of all its samples (every row,
    column and channel); both metrics average uniformly over every sample, so
    one flat sequence stands for the height x width x channels buffer.
 */
module PhotoCmp {

  /** One 8-bit sample, the depth both metrics assume. */
  type Byte = x: int | 0 <= x <= 255

  /** All samples of one image, in any fixed order. */
  type Image = seq<Byte>

  /** Largest squared difference of two 8-bit samples: 255 * 255. */
  const MaxSquare: int := 65025

  const Int32Min: int := -0x8000_0000
  const Int32Max: int := 0x7fff_ffff

  /** The value an int32 holds after an integer result is stored in it:
      two's-complement wrap-around modulo 2^32. */
  function Wrap32(x: int): (r: int)
    ensures Int32Min <= r <= Int32Max
    ensures (x - r) % 0x1_0000_0000 == 0
    ensures Int32Min <= x <= Int32Max ==> r == x
  {
    var m := (x - Int32Min) % 0x1_0000_0000;
    m + Int32Min
  }

  /** One term of the reduction: both samples widened to int32, subtracted
      and squared in int32 arithmetic.  For 8-bit samples no step wraps, so
      the term is the exact square of the difference. */
  function SquaredDiff(x: Byte, y: Byte): (r: int)
    ensures r == (x - y) * (x - y)
    ensures 0 <= r <= MaxSquare
    ensures r == 0 <==> x == y
  {
    var d := Wrap32(x - y);
    assert -255 <= d <= 255;
    SquareBound(d);
    Wrap32(d * d)
  }

  lemma SquareBound(d: int)
    requires -255 <= d <= 255
    ensures 0 <= d * d <= MaxSquare
    ensures d * d == 0 <==> d == 0
  {
    if d < 0 {
      SquareBoundNonNeg(-d);
    } else {
      SquareBoundNonNeg(d);
    }
  }

  lemma SquareBoundNonNeg(d: int)
    requires 0 <= d <= 255
    ensures 0 <= d * d <= MaxSquare
    ensures d * d == 0 <==> d == 0
  {
    assert d * (255 - d) == 255 * d - d * d;
    if d > 0 {
      assert d * (d - 1) == d * d - d;
    }
  }

  /** Exact integer sum of the squared differences over every sample. */
  function SumSqDiff(a: Image, b: Image): (r: int)
    requires |a| == |b|
    ensures 0 <= r <= MaxSquare * |a|
    decreases |a|
  {
    if |a| == 0 then 0
    else SquaredDiff(a[0], b[0]) + SumSqDiff(a[1..], b[1..])
  }

  /** The mean of the squared differences, as an exact real. */
  function MeanSqDiff(a: Image, b: Image): (r: real)
    requires |a| == |b| > 0
    ensures 0.0 <= r <= MaxSquare as real
  {
    var s := SumSqDiff(a, b);
    MeanBound(s, |a|, MaxSquare);
    s as real / |a| as real
  }

  /** A total of n non-negative terms, each at most `bound`, has a mean
      between 0 and `bound`. */
  lemma MeanBound(s: int, n: nat, bound: int)
    requires n > 0 && 0 <= s <= bound * n
    ensures 0.0 <= s as real / n as real <= bound as real
  {
  }

  /** Mean squared error, rescaled by 255 * 255 as if the 8-bit samples
      lay in [0, 1]; it therefore lies in [0, 1] itself. */
  function Mse(a: Image, b: Image): (r: real)
    requires |a| == |b| > 0
    ensures 0.0 <= r <= 1.0
  {
    MeanSqDiff(a, b) / (MaxSquare as real)
  }

  /** Result of PSNR: a finite number of decibels, or positive infinity. */
  datatype Decibels = Finite(db: real) | Infinite

  /** Peak signal-to-noise ratio.  `log10` stands for the decimal logarithm
      the numeric library provides; it is a parameter because its
      floating-point values are not part of the model. */
  function Psnr(a: Image, b: Image, log10: real -> real): (r: Decibels)
    requires |a| == |b| > 0
    ensures r.Infinite? <==> Mse(a, b) == 0.0
    ensures r.Infinite? <==> a == b
    ensures r.Finite? ==> Mse(a, b) > 0.0 && r.db == -10.0 * log10(Mse(a, b))
  {
    MseZeroIff(a, b);
    var m := Mse(a, b);
    if m > 0.0 then Finite(-10.0 * log10(m)) else Infinite
  }

  // ---------------------------------------------------------------------
  // Properties of the exact reduction

  /** Swapping the two images does not change the sum: (x - y)^2 == (y - x)^2. */
  lemma {:induction false} SumSqDiffSymmetric(a: Image, b: Image)
    requires |a| == |b|
    ensures SumSqDiff(a, b) == SumSqDiff(b, a)
    decreases |a|
  {
    if |a| > 0 {
      SumSqDiffSymmetric(a[1..], b[1..]);
      assert SquaredDiff(a[0], b[0]) == SquaredDiff(b[0], a[0]);
    }
  }

  /** The sum of squares is zero exactly when every term is zero, that is,
      when the images agree at every sample position. */
  lemma {:induction false} SumSqDiffZeroIff(a: Image, b: Image)
    requires |a| == |b|
    ensures SumSqDiff(a, b) == 0 <==> a == b
    decreases |a|
  {
    if |a| > 0 {
      SumSqDiffZeroIff(a[1..], b[1..]);
      if a == b {
        assert a[1..] == b[1..];
      } else if a[0] == b[0] {
        assert a == [a[0]] + a[1..] && b == [b[0]] + b[1..];
        assert a[1..] != b[1..];
      }
    }
  }

  /** The sum over a concatenation of paired sample runs is the sum over
      each run. */
  lemma {:induction false} SumSqDiffAppend(a1: Image, a2: Image, b1: Image, b2: Image)
    requires |a1| == |b1| && |a2| == |b2|
    ensures SumSqDiff(a1 + a2, b1 + b2) == SumSqDiff(a1, b1) + SumSqDiff(a2, b2)
    decreases |a1|
  {
    if |a1| > 0 {
      assert (a1 + a2)[1..] == a1[1..] + a2;
      assert (b1 + b2)[1..] == b1[1..] + b2;
      SumSqDiffAppend(a1[1..], a2, b1[1..], b2);
    } else {
      assert a1 + a2 == a2 && b1 + b2 == b2;
    }
  }

  /** Moving one run of paired samples from the front to the back of both
      images leaves the sum unchanged, so the order in which blocks of
      samples (rows, or whole channels) are laid out does not matter. */
  lemma SumSqDiffSwapBlocks(a1: Image, a2: Image, b1: Image, b2: Image)
    requires |a1| == |b1| && |a2| == |b2|
    ensures SumSqDiff(a1 + a2, b1 + b2) == SumSqDiff(a2 + a1, b2 + b1)
  {
    SumSqDiffAppend(a1, a2, b1, b2);
    SumSqDiffAppend(a2, a1, b2, b1);
  }

  /** Two constant images of n samples each differ by n equal squares. */
  lemma {:induction false} SumSqDiffConstant(n: nat, x: Byte, y: Byte)
    ensures SumSqDiff(seq(n, _ => x), seq(n, _ => y)) == n * ((x - y) * (x - y))
  {
    if n > 0 {
      var a: Image := seq(n, _ => x);
      var b: Image := seq(n, _ => y);
      assert a[1..] == seq(n - 1, _ => x);
      assert b[1..] == seq(n - 1, _ => y);
      SumSqDiffConstant(n - 1, x, y);
    }
  }

  // ---------------------------------------------------------------------
  // Properties of MSE

  lemma MseSymmetric(a: Image, b: Image)
    requires |a| == |b| > 0
    ensures Mse(a, b) == Mse(b, a)
  {
    SumSqDiffSymmetric(a, b);
  }

  /** MSE is zero exactly for sample-identical images. */
  lemma MseZeroIff(a: Image, b: Image)
    requires |a| == |b| > 0
    ensures Mse(a, b) == 0.0 <==> a == b
    ensures Mse(a, b) == 0.0 <==> forall i :: 0 <= i < |a| ==> a[i] == b[i]
  {
    SumSqDiffZeroIff(a, b);
    var s := SumSqDiff(a, b);
    var n := |a| as real;
    if s != 0 {
      assert s as real > 0.0;
      assert s as real / n > 0.0;
    }
  }

  /** Two constant images of values x and y have MSE (x - y)^2 / 255^2;
      for x = 100 and y = 150 that is 2500 / 65025. */
  lemma MseConstant(n: nat, x: Byte, y: Byte)
    requires n > 0
    ensures Mse(seq(n, _ => x), seq(n, _ => y)) == ((x - y) * (x - y)) as real / (MaxSquare as real)
  {
    SumSqDiffConstant(n, x, y);
    CancelCount(n, (x - y) * (x - y));
  }

  /** Dividing n copies of d by n gives d back. */
  lemma CancelCount(n: nat, d: int)
    requires n > 0
    ensures (n * d) as real / (n as real) == d as real
  {
  }

  // ---------------------------------------------------------------------
  // Properties of PSNR

  lemma PsnrSelf(a: Image, log10: real -> real)
    requires |a| > 0
    ensures Psnr(a, a, log10) == Infinite
  {
  }

  /** With a logarithm that is non-positive on (0, 1], every finite PSNR
      is non-negative, because MSE never exceeds 1. */
  lemma PsnrNonNegative(a: Image, b: Image, log10: real -> real)
    requires |a| == |b| > 0
    requires forall x :: 0.0 < x <= 1.0 ==> log10(x) <= 0.0
    ensures Psnr(a, b, log10).Finite? ==> Psnr(a, b, log10).db >= 0.0
  {
  }

  /** With a strictly increasing logarithm, a strictly larger MSE gives a
      finite and strictly smaller PSNR. */
  lemma PsnrAntitone(a: Image, b: Image, c: Image, d: Image, log10: real -> real)
    requires |a| == |b| > 0 && |c| == |d| > 0
    requires forall x, y :: 0.0 < x < y ==> log10(x) < log10(y)
    requires Mse(a, b) < Mse(c, d)
    ensures Psnr(c, d, log10).Finite?
    ensures Psnr(a, b, log10).Finite? ==> Psnr(a, b, log10).db > Psnr(c, d, log10).db
  {
  }
}
