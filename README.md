# photocmp: MSE and PSNR in Dafny

This project models the two pairwise image metrics of the `photocmp` package,
`mse` and `psnr`, and proves their properties with exact integer and real
arithmetic.

- **MSE.** Each pair of samples is widened to `int32`, subtracted and squared.
  The squares are averaged over every sample and channel. The average is then
  divided by `255 * 255`, so the result reads as if the 8-bit inputs lay in
  [0, 1].
- **PSNR.** It returns `-10 * log10(m)` when the MSE `m` is positive, and
  positive infinity otherwise.

Everything lives in one module, `PhotoCmp` (`photocmp.dfy`):

- An image is the flat sequence of all its samples, each of type `Byte`
  (an integer in `0..255`). Both metrics weigh every sample equally, so one
  flat sequence stands for the height × width × channels buffer. `SumSqDiffAppend`
  proves that the sum splits over any concatenation, and `SumSqDiffSwapBlocks`
  that swapping two blocks of paired samples leaves it unchanged.
- `Wrap32` models storing an integer in an `int32` (two's-complement
  wrap-around). `SquaredDiff` uses it at every step of the term, and its
  contract proves that no step wraps for 8-bit samples.
- `SumSqDiff` is the exact integer reduction. `MeanSqDiff` is its mean as an
  exact real. `Mse` divides that by 65025.
- `Psnr` returns a `Decibels` value, `Finite(db)` or `Infinite`. The decimal
  logarithm is the parameter `log10: real -> real`, because its floating-point
  values are not modelled. Lemmas that need facts about the logarithm (its
  sign on (0, 1], its monotonicity) take them as hypotheses.

The source does not check that the two images have the same shape. Every
pairwise member requires equal lengths, and no error path is modelled.

## Model

| member | source | states |
|---|---|---|
| PhotoCmp.Wrap32 | photocmp/__init__.py:12 | storing a value in an int32 gives a result in [-2^31, 2^31-1], congruent to it modulo 2^32, and equal to it whenever it already fits |
| PhotoCmp.SquaredDiff | photocmp/__init__.py:12 | the int32 difference-then-square of two 8-bit samples equals the exact (x - y)^2, lies in [0, 65025], and is 0 exactly when the samples are equal |
| PhotoCmp.SumSqDiff | photocmp/__init__.py:12 | the exact sum of squared differences over n sample pairs lies in [0, 65025 * n] |
| PhotoCmp.MeanSqDiff | photocmp/__init__.py:12 | the mean of the squared differences over all samples lies in [0, 65025] |
| PhotoCmp.Mse | photocmp/__init__.py:7-13 | after division by 255 * 255, the MSE of two 8-bit images lies in [0, 1] |
| PhotoCmp.Psnr | photocmp/__init__.py:16-22 | PSNR is infinite exactly when the MSE is 0, which is exactly when the two images are sample-identical; otherwise the MSE is positive and the result is -10 * log10(MSE) |
| PhotoCmp.SumSqDiffSymmetric | photocmp/__init__.py:12 | swapping the images leaves the sum of squared differences unchanged |
| PhotoCmp.SumSqDiffZeroIff | photocmp/__init__.py:12 | the sum of squared differences is 0 if and only if the images are equal |
| PhotoCmp.SumSqDiffAppend | photocmp/__init__.py:12 | the sum over a concatenation of paired sample sequences is the sum over each part |
| PhotoCmp.SumSqDiffSwapBlocks | photocmp/__init__.py:12 | swapping two blocks of paired samples (for example two channels laid out one after the other) in both images leaves the sum unchanged |
| PhotoCmp.SumSqDiffConstant | photocmp/__init__.py:12 | for two constant images of n samples with values x and y, the sum is n * (x - y)^2 |
| PhotoCmp.MseSymmetric | photocmp/__init__.py:12-13 | mse(a, b) == mse(b, a) |
| PhotoCmp.MseZeroIff | photocmp/__init__.py:12-13 | mse(a, b) == 0 if and only if a and b agree at every sample position (so mse(a, a) == 0) |
| PhotoCmp.MseConstant | photocmp/__init__.py:12-13 | two constant images of values x and y have MSE (x - y)^2 / 65025, e.g. 2500 / 65025 for 100 against 150 |
| PhotoCmp.PsnrSelf | photocmp/__init__.py:18-22 | psnr(a, a) is infinity |
| PhotoCmp.PsnrNonNegative | photocmp/__init__.py:18-20 | if the logarithm is non-positive on (0, 1], every finite PSNR is non-negative, since the MSE never exceeds 1 |
| PhotoCmp.PsnrAntitone | photocmp/__init__.py:18-20 | if the logarithm is strictly increasing, a strictly larger MSE gives a finite, strictly smaller PSNR |

## Left out

- Floating-point numerics. numpy takes the mean in float64 and `np.log10` is a float function. The model uses an exact real mean and leaves the logarithm as a parameter.
- `np.inf` is modelled as the `Infinite` constructor, not as an IEEE value.
- Shape checking and broadcasting. The code compares no shapes, and numpy may broadcast operands of different shapes. The model requires equal lengths instead.
- Empty images, for which numpy's mean is NaN. The model requires at least one sample, so the NaN branch of `psnr`'s `else` is not modelled.
- Inputs deeper than 8 bits. The source states the 8-bit assumption, and `Byte` enforces it. `Wrap32` would still let wider samples be studied, but no property is proved about them.
- The height × width × channels layout, which is flattened into one sequence. Only block reordering is proved harmless (`SumSqDiffSwapBlocks`). Invariance under an arbitrary permutation applied to both images alike is not proved.
- SSIM, window tiling, `stretch` and `normalize`. Their source is not part of this model.
