# Image kernels of script.js, in Dafny

script.js is a small browser image editor. It loads a picture into a canvas. It can then apply one of four filters to the picture's RGBA pixel buffer. Each filter reads the original buffer and writes a new one:

- `applyLowPassFilter`: a 3×3 box blur that uses only the neighbours inside the image;
- `applyOtsuThreshold`: a global black/white threshold picked by Otsu's method from the luminance histogram;
- `applyAdaptiveMeanThreshold`: a local threshold at 0.9 × the mean luminance over a clamped 15×15 window, with the window sums read from an integral (summed-area) table;
- `applyAdaptiveThreshold`: a local threshold at the window mean. Flat windows, where max − min < 15, are set to white.

The three thresholding filters share `rgbToGray`, which is the floor of 0.299 R + 0.587 G + 0.114 B.

This project models those four computations and proves what they produce. The modules follow the script's structure:

| module | file | models |
|---|---|---|
| `Pixels` | pixels.dfy | the RGBA buffer layout `(y*W+x)*4+c`, `rgbToGray`, `clamp`, the four-byte pixel write |
| `Windows` | windows.dfy | clamped windows; sums, minima and maxima over rectangles; the bounds-checked neighbour scans of the loops |
| `BoxFilter` | box_filter.dfy | `applyLowPassFilter` |
| `Otsu` | otsu.dfy | `applyOtsuThreshold`: histogram, level sum, threshold scan, binarisation |
| `OtsuTwoLevels` | otsu_two_levels.dfy | what the Otsu kernel gives on two-level and uniform images, and a corrected binarisation (see Findings) |
| `AdaptiveMean` | adaptive_mean.dfy | `applyAdaptiveMeanThreshold`: integral table, four-lookup window sum, mean test |
| `LocalContrast` | local_contrast.dfy | `applyAdaptiveThreshold`: window scan, contrast test |

Each kernel is an imperative method on `array<Byte>`, as in the script. It returns a fresh destination array. Its `ensures` ties that array to a specification function on the source sequence: `LowPassImage`, `OtsuImage`, `MeanImage` or `ContrastImage`. For the box filter and the two adaptive thresholds, the specification function is defined byte by byte: channel c of pixel (x, y) is a function of the clamped window around (x, y), and every alpha byte is copied. Their loops follow the script's order: rows, then columns, then the window, and each pixel is written through a per-pixel method. The Otsu kernel instead depends on one global threshold computed from the histogram of the whole image; its histogram and binarisation loops step through the flat buffer four bytes at a time, as the script does, and `Binarize` writes the four bytes of each pixel itself. Lemmas then prove, about the specification functions, what the script's kernels guarantee. The source array never appears in a `modifies` clause, so the verifier checks that it is left unchanged.

## Model

| member | source | states |
|---|---|---|
| Pixels.Gray | script.js:275-277 | defines `rgbToGray` as ⌊(299r + 587g + 114b)/1000⌋, the exact-decimal form of the script's weights; its meaning is proved by GrayIsFloor and GrayBetween |
| Pixels.GrayIsFloor | script.js:275-277 | Gray(r,g,b) is the floor of 0.299r + 0.587g + 0.114b, computed in exact arithmetic; a grey pixel (r = g = b) keeps its value in this exact arithmetic |
| Pixels.GrayBetween | script.js:275-277 | the luminance lies between the smallest and the largest of the three channels, so it stays in [0, 255] |
| Pixels.Clamp | script.js:279-281 | the composition `max(0, min(255, value))` leaves values in [0, 255] unchanged, sends values below to 0 and values above to 255 |
| Pixels.ClampNearest | script.js:279-281 | Clamp gives the byte nearest to its argument and is the identity on bytes |
| Pixels.PosCoordinates | script.js:95 | the byte index (y*W+x)*4+c of an in-image pixel lies inside the buffer and decodes back to column x, row y and channel c |
| Pixels.PixelCount | script.js:75 | a valid buffer holds exactly W*H four-byte pixels |
| Pixels.WritePixel | script.js:207-208 | writes the value to the three colour bytes of one pixel and the alpha byte to the fourth; every other byte is unchanged |
| Windows.ClampedWindow | script.js:191-194 | the window [max(x−k,0), min(x+k,W−1)] × [max(y−k,0), min(y+k,H−1)] lies inside the image and contains (x, y) |
| Windows.CountRange | script.js:195 | the window count (x2−x1+1)(y2−y1+1) lies in [1, (2k+1)²], which is [1, 225] for k = 7 |
| Windows.InclusionExclusion | script.js:197-201 | a rectangle's sum is the bottom-right prefix, minus the two side prefixes, plus the corner prefix |
| Windows.WindowSumBounds | script.js:245 | a window's luminance or channel sum lies in [0, 255 × count] |
| Windows.RectMinMaxBounds | script.js:247-248 | every pixel of a rectangle lies between the rectangle's minimum and maximum |
| Windows.RectMinAttained | script.js:247 | some pixel of a non-empty rectangle equals its minimum |
| Windows.RectMaxAttained | script.js:248 | some pixel of a non-empty rectangle equals its maximum |
| Windows.ScanSumIsWindowSum | script.js:234-245 | summing the in-bounds taps of an unclamped (2k+1)² scan gives the clamped window's sum |
| Windows.ScanCountIsCount | script.js:238-246 | counting the in-bounds taps of the scan gives the clamped window's count |
| Windows.ScanMinIsWindow | script.js:231-247 | the running minimum, started at 255, is the clamped window's minimum |
| Windows.ScanMaxIsWindow | script.js:232-248 | the running maximum, started at 0, is the clamped window's maximum |
| Windows.WindowSumUniform | script.js:87-99 | on a uniform image, a window's sum is count × the common value |
| Windows.UniformMinMax | script.js:247-248 | on a uniform image, min and max of any rectangle both equal the common luminance |
| BoxFilter.Stored | script.js:104-106 | defines the byte the `Uint8ClampedArray` keeps for sum/9 as (2·sum + 9)/18, and ensures that 9 times it lies within 4 of the sum, so it is within half of sum/9 |
| BoxFilter.StoredIsNearest | script.js:97-106 | the stored byte is the integer nearest to sum/9, which is the exact value the 1/9 weights give; that integer is unique, since sum/9 is never halfway between two integers |
| BoxFilter.StoredMultiples | script.js:96-106 | nine equal samples v give back v; four equal samples v > 0, as at a corner, give less than v |
| BoxFilter.Neighbourhood | script.js:90-94 | the 3×3 neighbourhood, clipped to the image, lies inside the image |
| BoxFilter.NeighbourSumBounds | script.js:87-100 | each neighbourhood channel sum lies in [0, 9×255], so its ninth is a byte |
| BoxFilter.NeighbourhoodSum | script.js:87-102 | the nested ky/kx loop with its bounds test accumulates, for R, G and B, exactly the sum over the clipped neighbourhood |
| BoxFilter.LowPassPixel | script.js:103-107 | the three colour bytes of (x, y) hold the rounded neighbourhood means; the alpha byte is the source's |
| BoxFilter.LowPassImage | script.js:75-107 | defines the filtered buffer byte by byte from the clipped 3×3 neighbourhood sums; it has the source's length and copies every alpha byte |
| BoxFilter.LowPassImageOf | script.js:75-107 | a buffer that agrees byte for byte with the specification is the filtered image, and it copies every alpha byte |
| BoxFilter.FilterPixel | script.js:86-107 | writes the four bytes of one pixel with their specified values and leaves every other byte unchanged |
| BoxFilter.FilterRow | script.js:86-108 | after row y, every byte of rows 0..y holds its specified value and every byte of the rows below is unchanged |
| BoxFilter.ApplyLowPassFilter | script.js:70-113 | the result has the source's length and keeps every alpha byte; it equals LowPassImage of the source |
| BoxFilter.UniformInterior | script.js:85-107 | on a uniform image, every interior pixel keeps its colour |
| BoxFilter.UniformCorner | script.js:85-107 | on a uniform image of at least 2×2, a corner channel becomes the nearest integer to 4v/9, which is darker than v when v > 0 |
| Otsu.Bins | script.js:122-126 | defines the histogram of the first n pixels as the loop builds it, one increment of the pixel's luminance bin per pixel; it has 256 bins |
| Otsu.BinsCount | script.js:122-126 | bin v of the histogram over the first n pixels counts the pixels whose luminance is v |
| Otsu.BinsMass | script.js:122-126 | the histogram of the first n pixels has mass n |
| Otsu.HistogramMass | script.js:122-128 | the histogram has 256 bins whose counts add up to W*H, which is the script's `total` |
| Otsu.Histogram | script.js:122-126 | the loop over the buffer in steps of 4 builds the histogram of the luminances |
| Otsu.LevelSum | script.js:129-130 | the loop builds the luminance moment Σ t·hist[t] over all 256 bins |
| Otsu.OtsuThreshold | script.js:132-153 | the scan with its `wB === 0` skip, `wF === 0` break and strict `>` returns the first level t that maximises the between-class variance among the levels where both classes are non-empty, or 0 when there is no such level |
| Otsu.VarianceFromSums | script.js:141-148 | at a level where neither class is empty, the running wB, wF, sumB and sum − sumB give exactly the variance defined from the histogram |
| Otsu.VariancePositive | script.js:145-149 | that variance is strictly positive, so the first such level always beats the initial varMax of 0 |
| Otsu.NoCandidateAfter | script.js:141-142 | once the background holds every pixel, no later level has two non-empty classes, so the `break` loses nothing |
| Otsu.ScanStops | script.js:142 | after that point the scan's state does not change |
| Otsu.Scan | script.js:138-153 | defines the state (threshold, varMax) of the search after levels 0..n−1: a candidate level replaces the winner only when its variance is strictly greater; the threshold stays below n and varMax stays ≥ 0 |
| Otsu.ScanBestBelow | script.js:138-153 | after each level, the scan's threshold is the first maximiser so far and varMax is its variance |
| Otsu.ScanIsOtsu | script.js:138-153 | the complete scan yields the Otsu threshold |
| Otsu.OtsuUnique | script.js:149-151 | the first maximiser is unique, so the threshold does not depend on how it is found |
| Otsu.MomentLower | script.js:144-146 | the mean level of bins lo..hi−1 is at least lo: lo · mass ≤ moment (used for the foreground class) |
| Otsu.MomentUpper | script.js:144-146 | the mean level of bins lo..hi−1 is at most hi−1 (used for the background class) |
| Otsu.Binarized | script.js:155-160 | defines the binarised buffer: colour bytes 255 where the pixel's luminance is ≥ the threshold, else 0, alpha copied; it has the source's length |
| Otsu.BinarizedBytes | script.js:156-158 | every colour byte of the output is 0 or 255, and it is 255 exactly when the pixel's luminance is ≥ the threshold |
| Otsu.BinarizedPixel | script.js:157-159 | a pixel's three colour bytes share one value, and its alpha byte is copied |
| Otsu.Binarize | script.js:155-160 | the binarisation loop produces exactly the thresholded buffer |
| Otsu.OtsuImage | script.js:120-160 | defines the Otsu output as the source binarised at the Otsu level of its histogram; it has the source's length, every colour byte is 0 or 255, and every alpha byte is copied |
| Otsu.OtsuLevelIsOtsu | script.js:122-153 | the level the kernel uses is the Otsu threshold of the image's histogram with total W*H |
| Otsu.ApplyOtsuThreshold | script.js:115-164 | the result has the source's length and keeps every alpha byte; it equals the image thresholded at the Otsu level |
| Otsu.SingleLevelNoCandidate | script.js:138-142 | in a one-level image, no level has two non-empty classes |
| Otsu.OtsuSingleLevel | script.js:136-158 | a one-level image gets threshold 0, so every colour byte becomes 255 |
| Otsu.OtsuUniform | script.js:136-158 | a uniform image, of any colour, becomes all white |
| OtsuTwoLevels.TwoLevelHistogram | script.js:122-128 | an image with luminances a and b only has exactly those two bins filled, with mass W*H |
| OtsuTwoLevels.TwoBinsOtsu | script.js:138-153 | with only bins a < b filled, every level in [a, b) is a candidate with the same variance, so the threshold is a |
| OtsuTwoLevels.Plateau | script.js:144-148 | every level strictly between a and b splits the pixels exactly as a does |
| OtsuTwoLevels.TwoThreshold | script.js:122-153 | the Otsu level of a two-level image is its lower luminance a |
| OtsuTwoLevels.OtsuTwoLevelsAllWhite | script.js:155-158 | the kernel as written turns an image of two luminances all white |
| OtsuTwoLevels.SplitIsShift | script.js:157 | testing `gray > th` is the same as testing `gray >= th + 1` |
| OtsuTwoLevels.SplitTwoLevels | script.js:157 | with the strict test, a two-level image is split: the darker level becomes 0 and the lighter 255 |
| OtsuTwoLevels.SplitUniform | script.js:157 | with the strict test, a uniform image is white unless its luminance is 0, and then it is black |
| AdaptiveMean.PrefixOnAxes | script.js:182-184 | the prefix sum of an empty rectangle, on row −1 or column −1, is 0 |
| AdaptiveMean.PrefixStep | script.js:185 | the prefix sums satisfy the recurrence gray + left + above − aboveLeft |
| AdaptiveMean.PrefixMonotone | script.js:176-187 | the prefix sums do not decrease along either axis |
| AdaptiveMean.IntegralCell | script.js:180-185 | one cell of the table, computed from its already filled neighbours, is the prefix sum through (x, y) |
| AdaptiveMean.BuildIntegral | script.js:176-187 | every cell [y][x] of the new table is the luminance sum over the rectangle [0..x] × [0..y] |
| AdaptiveMean.FourLookup | script.js:197-201 | the four-lookup expression equals the luminance sum over the window |
| AdaptiveMean.WindowLookup | script.js:197-201 | the lookups, with their `y1 > 0` and `x1 > 0` guards, return the window's luminance sum |
| AdaptiveMean.LocalWindow | script.js:191-201 | sum and count come from the window clamped with half-width 7 |
| AdaptiveMean.AboveMeanIsReal | script.js:204-206 | the integer test 10·gray·count ≥ 9·sum is exactly gray ≥ (sum/count)·0.9 |
| AdaptiveMean.MeanTestMeaning | script.js:191-206 | the count lies in [1, 225]; a pixel is white exactly when its luminance is ≥ 0.9 × the mean of its clamped window |
| AdaptiveMean.MeanValue | script.js:202-206 | the per-pixel computation returns 255 exactly when the mean test holds, and 0 otherwise |
| AdaptiveMean.MeanPixel | script.js:202-208 | writes one pixel's four specified bytes and nothing else |
| AdaptiveMean.MeanRow | script.js:190-209 | after row y, rows 0..y hold their specified bytes and the rows below are unchanged |
| AdaptiveMean.MeanImage | script.js:171-208 | defines the output byte by byte from the mean test of each pixel's clamped window; it has the source's length, every colour byte is 0 or 255, and every alpha byte is copied |
| AdaptiveMean.MeanImageOf | script.js:171-208 | a buffer that agrees byte for byte with the specification is the thresholded image, and it copies every alpha byte |
| AdaptiveMean.ApplyAdaptiveMeanThreshold | script.js:166-214 | the result has the source's length and keeps every alpha byte; it equals MeanImage of the source |
| AdaptiveMean.MeanUniform | script.js:202-206 | on a uniform image, every pixel passes the mean test |
| AdaptiveMean.MeanImageUniform | script.js:189-210 | a uniform image becomes all white |
| LocalContrast.WindowStats | script.js:229-251 | the nested scan returns the sum, count, minimum and maximum of the luminance over the clamped 15×15 window |
| LocalContrast.AtLeastMeanIsReal | script.js:253-264 | the integer test gray·count ≥ sum is exactly gray ≥ sum/count |
| LocalContrast.ContrastTestMeaning | script.js:253-266 | the count lies in [1, 225]; a pixel is white exactly when max − min < 15 or its luminance is ≥ the window mean |
| LocalContrast.ContrastValue | script.js:253-266 | the per-pixel computation returns 255 exactly when the contrast test holds, and 0 otherwise |
| LocalContrast.ContrastPixel | script.js:253-267 | writes one pixel's four specified bytes and nothing else |
| LocalContrast.ContrastRow | script.js:228-268 | after row y, rows 0..y hold their specified bytes and the rows below are unchanged |
| LocalContrast.ContrastImage | script.js:221-267 | defines the output byte by byte from the contrast test of each pixel's clamped window; it has the source's length, every colour byte is 0 or 255, and every alpha byte is copied |
| LocalContrast.ContrastImageOf | script.js:221-267 | a buffer that agrees byte for byte with the specification is the thresholded image, and it copies every alpha byte |
| LocalContrast.ApplyAdaptiveThreshold | script.js:216-273 | the result has the source's length and keeps every alpha byte; it equals ContrastImage of the source |
| LocalContrast.ContrastUniform | script.js:254-257 | on a uniform image, every window is flat |
| LocalContrast.ContrastImageUniform | script.js:227-268 | a uniform image becomes all white |

## Left out

- Floating point:
  - The script computes in IEEE doubles: the 0.299/0.587/0.114 weights, the 1/9 box weights, Otsu's means and variance, and the `* 0.9` and `sum / count` thresholds.
  - The model uses exact arithmetic instead. Gray is ⌊(299r + 587g + 114b)/1000⌋. The box sum is an integer sum then divided by 9. Otsu's variance is a `real`. The mean tests are integer cross-multiplications, proved equal to the real-valued comparisons.
  - Where the double result lands within rounding error of an integer or of a threshold, the script's answer can differ from the exact one. The model does not capture those differences.
  - Grey pixels are one such case. In doubles, 0.299v + 0.587v + 0.114v falls just below v for some grey levels (v = 1, 2, 4, 8, 11, …), so the script's floor gives v − 1 there. Pixels.GrayIsFloor's grey fixed point and OtsuTwoLevels.SplitUniform's "black exactly when the luminance is 0" hold of the exact formula only.
- The store into a `Uint8ClampedArray` rounds to the nearest integer, with ties to even. A box sum divided by 9 is never a tie, so `Stored` is the nearest integer and that rule is not needed.
- The `if (!originalImage) return;` guard becomes a precondition: a valid buffer with W, H > 0 and exactly 4·W·H bytes. Width, height and data arrive as parameters instead of through the `originalImage` global.
- The DOM and UI code (script.js:1-68) is not part of this model: file loading, canvas drawing, buttons and the `originalImage`/`processedImage` globals.
- The write-back to the canvas after each filter (script.js:111-112, 162-163, 212-213, 271-272) is not part of this model either. Each kernel returns its fresh buffer instead.
- The integral table is an `array2<int>`. The script builds an array of row arrays (`integral[y] = []`), which is the same data.
- Pixels.Clamp: `clamp` is not called by any kernel. It is modelled on its own.
- JavaScript numbers are exact for integers up to 2^53. The model uses unbounded integers throughout.
  - The integral table and Otsu's `sum` reach at most 255·W·H, which is exact for images of up to about 3.5·10^13 pixels.
  - Otsu's variance at script.js:148 evaluates `wB * wF` first, an integer product of up to (W·H)²/4. It is exact only for images of up to about 1.9·10^8 pixels; beyond that its rounding is part of the double-valued Otsu variance of the floating-point bullet above, which the model does not capture.
- Where the script's behaviour looks unintended, the model follows the code:
  - The box filter preserves a uniform image only in the interior. Border pixels average fewer neighbours but still divide by 9, so they darken when v > 1 (BoxFilter.UniformCorner shows it for corners whenever v > 0).
  - A 1×1 image is not left unchanged when v > 0: its pixel becomes round(v/9).
  - The adaptive mean threshold turns every uniform image white, because g ≥ 0.9·g for every g ≥ 0 (AdaptiveMean.MeanImageUniform).
  - Otsu on a uniform image is always all white, even for a black image (see Findings).

## Findings

| source | as written | input that shows it | evidently intended | confidence | as-written member | corrected member |
|---|---|---|---|---|---|---|
| script.js:155-158 | the threshold t is the last level of the background class, but pixels are set white when `gray >= t`, so a background pixel at level t turns white | a 2×1 image with luminances 50 and 200: every level in [50, 200) ties, the first (50) is kept, and both pixels become 255 | background (`gray <= t`) black, foreground white, so 50 becomes 0 and 200 becomes 255 | not executed | OtsuTwoLevels.OtsuTwoLevelsAllWhite | OtsuTwoLevels.SplitTwoLevels |
| script.js:136, script.js:157 | no level has two non-empty classes, so the threshold stays 0 and `gray >= 0` turns every pixel white | a uniform black image (every pixel 0,0,0): the output is all white | a uniform image keeps its side of the split: black stays black | not executed | Otsu.OtsuUniform | OtsuTwoLevels.SplitUniform |

The kernel method `Otsu.ApplyOtsuThreshold` keeps the script's `>=`, so it models the code as written. The corrected binarisation `OtsuTwoLevels.SplitBinarized` tests `gray > threshold`. It is proved equal to the as-written binarisation at threshold + 1 (`OtsuTwoLevels.SplitIsShift`), and its behaviour on both inputs above is proved.
