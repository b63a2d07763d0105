# astromy core in Dafny

This project models two parts of the `astromy` astronomy helpers:

- **The LaTeX error column of `astromy/latex.py`.**
  - `error_column` writes one entry per row of values and errors. The symmetric form is `|x+-<<e>>|`. The asymmetric form is `|x++<<+u>>--<<-l>>|`.
  - `latex_formatter` turns those placeholder tokens into math markup with six chained `str.replace` calls.
- **The `AstroImage` container of `astromy/image.py`.**
  - Its geometry: `shape` and `pixcenter`.
  - Its `footprint`.
  - The in-place `mask_blank`. It builds the histogram of pixel values (`np.unique` with counts), selects the values whose count exceeds `mean(counts) + 5*std(counts) + threshold`, and sets every pixel equal to one of them to NaN.
  - The algorithm-name guard of `rotate`.

Modules and what each holds:

- `Wrappers`: `Option` and `Result`.
- `StrReplace`: Python's `str.replace`, with the facts the formatter needs.
  - A replacement with plain text removes its pattern and adds no token.
  - Replacing in a concatenation is replacing piece by piece.
- `Decimal`: fixed-point rendering, standing in for `f'{v:.{round}f}'`, with a proved read-back.
- `LatexFormat`: `latex_formatter`.
  - Its output is free of tokens.
  - It is idempotent.
  - It renders each entry template exactly.
- `Latex`: `error_column`, as a method with a loop, and what the formatter makes of every row it writes.
- `Stats`: numpy's population `mean` and `var` (the square of `std`), and the critical-count test without its square root.
  - Samuelson's inequality: no element lies more than `sqrt(n-1)` standard deviations from the mean.
  - The Cauchy-Schwarz bound it rests on.
- `Histogram`: `np.unique(..., return_counts=True)` and the selection `values[counts > critical]`.
  - The counts add up to the number of pixels.
  - With at most 26 distinct values and a non-negative threshold, nothing is ever selected.
- `Image`: `class AstroImage`.
  - Its fields: `data` (an `array2` of pixels), `header` and `wcs`.
  - Its methods: `MaskBlank` updates `data` in place; `Footprint` allocates a new image; `Rotate` checks the algorithm.

A pixel is `NaN` or a real `Val(v)`. `NumEq` is numpy's `==` on floats, which never holds for NaN. So `mask_blank`'s `data == m` never matches NaN pixels, even when NaN is itself a selected value. The histogram itself counts all NaNs in one bin, as `np.unique` does in numpy 1.21 and later.

`mask_blank` with a non-negative threshold never masks anything in an image with at most 26 distinct values, even a value that fills over 99% of the image. By Samuelson's inequality, a count then lies within 5 standard deviations of the mean, so it cannot exceed the critical count. `Histogram.FewValuesNeverMasked` proves this, and `Histogram.UniformNeverMasked` proves the single-value case. A selection needs more distinct values or a negative threshold; `Image.MaskBlankExample` shows one at a negative threshold.

## Model

| member | source | states |
|---|---|---|
| Latex.ErrorColumn | astromy/latex.py:1-12 | fails with the `'NoneType' object has no attribute 'astype'` error exactly when the asymmetric form is asked for without upper errors; otherwise it returns one entry per zipped row, in row order: the symmetric entry of value and error, or the asymmetric entry of value, upper error and lower error |
| Latex.CollectRows | astromy/latex.py:6-7 | the loop appends one entry per row: the column has the rows' length, and entry i formats row i |
| Latex.Zip | astromy/latex.py:6 | `zip` of two arrays stops at the shorter one and pairs elements of equal index |
| Latex.Zip3 | astromy/latex.py:10 | `zip` of three arrays stops at the shortest one and groups elements of equal index |
| Latex.SymmetricEntry | astromy/latex.py:7 | a symmetric entry starts and ends with the bar character that becomes `$` |
| Latex.AsymmetricEntry | astromy/latex.py:11 | an asymmetric entry starts and ends with the bar character that becomes `$` |
| Latex.LatexSymmetricEntry | astromy/latex.py:7-15 | every symmetric row, with any signs, renders as `$x\pm{e}$` |
| Latex.LatexAsymmetricEntry | astromy/latex.py:11-15 | every asymmetric row with non-negative errors renders as `$x^{+u}_{-l}$` |
| Latex.LatexNegativeUpper | astromy/latex.py:11-15 | a negative upper error `-e` loses its sign: the row renders as `$x^{\pm e}_{-l}$` |
| Latex.LatexNegativeLower | astromy/latex.py:11-15 | a negative lower error `-e` with a non-negative upper error merges into the `--` token: the row renders as `$x^{+u}_{_e}$` |
| Latex.LatexNegativeBoth | astromy/latex.py:11-15 | with both errors negative, the row renders as `$x^{\pm u}_{_l}$` |
| Decimal.Fmt | astromy/latex.py:7-11 | the rendering of `{:.Nf}` is non-empty and starts with a minus sign exactly for negative values |
| Decimal.FmtRoundTrip | astromy/latex.py:7 | the fixed-point rendering with `round` decimals reads back as the value it renders, so no digit is lost or invented |
| LatexFormat.LatexFormatter | astromy/latex.py:14-15 | `latex_formatter` leaves a rendered number, signed or not, unchanged |
| LatexFormat.LatexFormatterTokenFree | astromy/latex.py:15 | no placeholder token survives the formatter |
| LatexFormat.LatexFormatterIdentity | astromy/latex.py:15 | text without tokens passes through unchanged |
| LatexFormat.LatexFormatterIdempotent | astromy/latex.py:15 | formatting twice is formatting once |
| LatexFormat.LatexSymmetric | astromy/latex.py:7-15 | the symmetric template around any two operands becomes `$A\pm{B}$` |
| LatexFormat.LatexAsymmetric | astromy/latex.py:11-15 | the asymmetric template around plain upper and lower parts becomes `$A^{+U}_{-L}$` |
| LatexFormat.LatexPlusMinus | astromy/latex.py:11-15 | when the upper part starts with `-`, the template's `+` and that `-` form the `+-` token, giving `$A^{\pm M}_{-L}$` |
| LatexFormat.LatexMinusMinus | astromy/latex.py:11-15 | when the lower part starts with `-`, the template's `-` and that `-` form the `--` token, giving `$A^{+U}_{_M}$` |
| LatexFormat.LatexBothNegative | astromy/latex.py:11-15 | when both parts start with `-`, the template gives `$A^{\pm N}_{_M}$` |
| StrReplace.Replace | astromy/latex.py:15 | `str.replace` replaces every non-overlapping occurrence, scanning left to right; its contract states that replacing a pattern by itself changes nothing and that a replacement of equal length keeps the length |
| StrReplace.ReplaceIdentity | astromy/latex.py:15 | `str.replace` leaves a string without the pattern unchanged |
| StrReplace.ReplaceFree | astromy/latex.py:15 | a replacement with plain text leaves no occurrence of its pattern and creates no new token |
| StrReplace.ReplacePieces | astromy/latex.py:15 | when no occurrence straddles a join, replacing in a concatenation is replacing in each piece |
| Stats.Variance | astromy/image.py:186 | the population variance of the counts is never negative |
| Stats.ExceedsCritical | astromy/image.py:186-188 | a count that passes the test lies above the mean plus the threshold, and an empty histogram passes nothing |
| Stats.ExceedsCriticalIff | astromy/image.py:186-188 | the squared-out test holds exactly when `count > mean + 5*std + threshold`, and a selected count lies above the mean plus the threshold |
| Stats.Samuelson | astromy/image.py:186 | no count lies further than `sqrt(n-1)` standard deviations from the mean |
| Stats.FewValuesNeverExceed | astromy/image.py:186-188 | with at most 26 counts and a non-negative threshold, no count exceeds the critical count |
| Histogram.Distinct | astromy/image.py:185 | the distinct values are exactly the values of the image, each listed once |
| Histogram.Counts | astromy/image.py:185 | one count per distinct value, and no bin is empty |
| Histogram.CountsPartition | astromy/image.py:185 | the histogram counts add up to the number of pixels |
| Histogram.Modes | astromy/image.py:186-188 | a value is selected exactly when it occurs in the image and its count exceeds `mean(counts) + 5*std(counts) + threshold` |
| Histogram.ModesAboveAverage | astromy/image.py:186-188 | a selected value occurs more often than the average bin holds, by more than the threshold |
| Histogram.FewValuesNeverMasked | astromy/image.py:185-188 | with at most 26 distinct values and a non-negative threshold, nothing is selected |
| Histogram.UniformNeverMasked | astromy/image.py:185-188 | an image of one repeated value has nothing selected at a non-negative threshold |
| Image.MaskWith | astromy/image.py:190-193 | after the loop over the selected values, a pixel is NaN exactly when it was NaN or numerically equal to one of them; otherwise it keeps its value |
| Image.MaskWithStep | astromy/image.py:190-193 | one more pass of the loop masks the pixels equal to the next selected value and nothing else |
| Image.MaskBlankPixel | astromy/image.py:185-193 | after `mask_blank`, a pixel is NaN exactly when it was NaN or its value's count exceeds the critical count; every other pixel keeps its value |
| Image.MaskBlankExample | astromy/image.py:185-193 | for pixels 0, 0, 7 at threshold -3, the critical count is 1 and only the value 0 is selected |
| Image.AstroImage.MaskBlank | astromy/image.py:181-194 | updates `data` in place: each pixel becomes its masked value under the values selected from the original histogram; returns the image itself |
| Image.AstroImage.constructor | astromy/image.py:79-82 | stores the data, the header and the given WCS object, which stands for `WCS(header)` |
| Image.AstroImage.Shape | astromy/image.py:96-100 | the width is `NAXIS1` if the WCS has it, else the number of columns; the height is `NAXIS2`, else the number of rows |
| Image.Center | astromy/image.py:110 | the centre is as far from the first pixel as from the last, on both axes |
| Image.AstroImage.PixCenter | astromy/image.py:107-111 | `pixcenter` is the centre of `shape` |
| Image.CenterTenByTen | astromy/image.py:107-111 | a 10 by 10 image has its centre at (4.5, 4.5) |
| Image.AstroImage.Pixels | astromy/image.py:185 | the flattened image has rows × columns pixels, and position `i*columns + j` holds pixel (i, j), in numpy's row-major order |
| Image.FootprintPixel | astromy/image.py:119 | a footprint pixel is 1.0 or 0.0, and it is 1.0 exactly where the data is not NaN |
| Image.AstroImage.Footprint | astromy/image.py:117-119 | a new image with the same header and dimensions, whose pixels are the footprint of this image's pixels |
| Image.AlgorithmNamed | astromy/image.py:171-178 | a name is supported exactly when it is `interpolation`, `exact` or `adaptive`, and it names its algorithm |
| Image.AlgorithmNameRoundTrip | astromy/image.py:171-176 | every algorithm is recognised by its own name |
| Image.RotatePlan | astromy/image.py:171-178 | fails with `ValueError('Algorithm not supported')` exactly for an unsupported name; otherwise it resamples with the named algorithm, the given angle and the output shape |
| Image.AstroImage.Rotate | astromy/image.py:166-179 | after WCS work that is not modelled and touches no state of the image, fails exactly for an unsupported algorithm and otherwise resamples with the named algorithm to the corrected output shape; the image itself is not changed |
| Image.ShapeOutAsWrittenTransposes | astromy/image.py:172 | as written, the output shape of a non-square image without WCS axis lengths is the transpose of its array's shape |
| Image.ShapeOutMatchesArray | astromy/image.py:172 | the corrected output shape is the array's own shape |

## Left out

- Reading and writing FITS files (`read`, `save`, `hdu`) is not modelled. `preview`, `__repr__`, `zscale`, `gamma_correction`, `combine_RGB` and `plot_beam` are not modelled either: they are I/O or plotting.
- `pixel_scale`, `skycenter` and `cutout` are not modelled. They are library calls into the WCS projection and `Cutout2D`.
- `df_to_latex` is not modelled: it is a call into pandas' `to_latex`, followed by the formatter that is modelled.
- `astromy/mygrizli.py` is not part of this model.
- The resampling in `rotate` is not modelled: `reproject_interp`/`reproject_exact`/`reproject_adaptive`. Image.AstroImage.Rotate returns the plan it would hand to the resampling, and it has no `modifies` clause.
- The WCS work at the start of `rotate` is not modelled (astromy/image.py:167-170): the `deepcopy` of the WCS, the new reference pixel and sky centre, and `transform_wcs`. It works on a copy and changes nothing on the image.
- `WCS(header)` is a library call. The constructor takes its result as an input, and the model keeps of it only the `NAXIS1`/`NAXIS2` attributes that `shape` asks for, when present. An astropy WCS object has no such attributes, so with astropy `shape` falls back to the array's dimensions; the model keeps the `getattr` branch for an object that has them.
- Image.AstroImage.Rotate: hands the resampling the corrected output shape, (rows, columns), where astromy/image.py:172-176 passes `self.shape`, (width, height). The shape as written is `Image.ShapeOutAsWritten`; the difference is recorded under Findings.
- Image.AstroImage.Footprint: the new image reuses this image's WCS object, which stands for `WCS(header)` evaluated again on the same header.
- Image.AstroImage.Footprint: the new image gets a copy of the header, not the same header object. Aliasing between the two images' headers is not modelled.
- Floating point is not modelled.
  - Values and errors of `error_column` are fixed-point integers in units of 10^-round, that is, already rounded.
  - The rounding of `{:.Nf}`, the rendering of NaN, infinity and negative zero, and `astype(float)` are not modelled.
  - Pixels and statistics are exact reals. `std` is squared out rather than computed with a square root.
- Histogram.Distinct lists values in order of first occurrence; `np.unique` sorts them. The set of selected values does not depend on the order, and so neither does the masked image.
- Image.AstroImage.MaskBlank assumes a float image. On an integer array, `np.nan` cannot be assigned.
- The `print` calls in `mask_blank` are not modelled, and neither is `mode_counts`, which only feeds them.
- Default arguments are passed explicitly: `threshold=10000`, `algorithm='interpolation'`, `round=2`, `sameerr=False` and `r_xerr=None`.
- Latex.LatexAsymmetricEntry: states the rendering only for non-negative errors. The negative cases are covered by Latex.LatexNegativeUpper, Latex.LatexNegativeLower and Latex.LatexNegativeBoth.
- Latex.ErrorColumn: the only error modelled is the missing upper errors. Inputs that are not numeric arrays are out of scope.
- Latex.ErrorColumn: `round` is a natural number. A negative `round` makes the format spec `.{round}f` invalid, so Python raises `ValueError` as soon as there is one row; that error is not modelled.

## Findings

| source | as written | input that shows it | evidently intended | confidence | as-written member | corrected member |
|---|---|---|---|---|---|---|
| astromy/image.py:172-176 | `shape_out=np.array(self.shape)` passes (width, height) | a 2-row, 3-column image without WCS axis lengths: `shape_out` is (3, 2), so the output has 3 rows and 2 columns | the array's (rows, columns) shape, (2, 3) | medium; not executed | Image.ShapeOutAsWrittenTransposes | Image.ShapeOutMatchesArray |
