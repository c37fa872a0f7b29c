# OrganoidArea in Dafny

OrganoidArea is an ImageJ (Jython) script that segments dense organoids in a
micrograph. It builds a binary mask, splits touching objects, turns the mask
into regions, and tabulates the regions whose area lies in a configured
range. Most stages are calls into the ImageJ library. This project models the
deterministic logic the script itself contains, and proves what that logic
guarantees:

- **Binarisation** (`getMask2D`): after the Triangle threshold is chosen, every
  sample at or above it becomes 255 and every other sample 0.
- **Hole filling** (`fillHoles`): flood fills with the sentinel 127 from every
  border pixel that is still 0, then remaps 127 to 0 and everything else to
  255. ImageJ's `FloodFiller.fill` is modelled as a worklist fill of the
  4-connected region of the seed's value. Its result is characterised by
  4-connected reachability through 0-pixels from the border.
- **Watershed cut** (`watershed`): the bitwise AND of the mask with the
  segmentation ImageJ's MaximumFinder returns, or no change when it returns
  nothing.
- **Region extraction** (`getRoisFromMask`): no selection halts the script with
  "No organoids found". A lone region is moved by the composite selection's
  bounds origin. Two or more regions are passed through unchanged.
- **Area filter and labelling** (the final loop): a region is kept iff
  minA ≤ area ≤ maxA (defaults 100 and 25000). Kept regions get table rows
  labelled 0, 1, 2, … in region order, and their areas go to the `areas` list
  in the same order.

Images are `seq<seq<int>>` indexed `img[y][x]`. An ImageJ processor always has
at least one row and one column, and every row is equally wide (`IsImage`).
Library results are parameters of the model: the threshold, the segmented
mask, the traced composite selection and the per-region statistics.

After flood filling, `fillHoles` maps every pixel that is not 127 to 255.
This includes values other than 0 and 255, and an input pixel that was
already 127 becomes 0. `HoleFilling.FilledPixel` states exactly this. On the
binary masks the script produces, it reduces to "a 0-pixel stays 0 iff it is
border-connected through 0-pixels".

Files: `images.dfy` (grids, points, adjacency), `connectivity.dfy` (walks and
reachability), `floodfill.dfy` (`FloodFiller.fill`), `holefilling.dfy`
(`fillHoles`), `thresholding.dfy`, `watershed.dfy`, `segmentation.dfy` (the
raster pipeline), `regions.dfy` (`getRoisFromMask`), `measurements.dfy` (area
filter and table), `organoids.dfy` (the script's flow from regions to table),
`options.dfy`.

## Model

| member | source | states |
|---|---|---|
| `Thresholding.Binarise` | OrganoidArea.py:66-70 | The output has the input's dimensions and holds only 0 and 255. A pixel is 255 exactly when its input sample is ≥ `thresh`. The loop computes the reference image `Binarised`. |
| `Thresholding.BinarisedIdempotent` | OrganoidArea.py:66-70 | For any threshold in 1..255, thresholding a binarised mask again at the same threshold changes nothing. |
| `Thresholding.HigherThresholdShrinksForeground` | OrganoidArea.py:66-70 | Raising the threshold never turns a background pixel into foreground. |
| `FloodFill.Fill` | OrganoidArea.py:93-106 | `ff.fill(x, y)` with colour 127. Exactly the pixels 4-connected to the seed through pixels of the seed's value take the colour. Every other pixel keeps its value. A seed already of that colour changes nothing. |
| `Connectivity.ClosedContainsComponent` | OrganoidArea.py:97-106 | A set that contains a seed and is closed under same-value 4-adjacency contains every pixel connected to the seed. This is why a finished fill misses no reachable pixel. |
| `HoleFilling.FillFrom` | OrganoidArea.py:98-106 | One guarded fill (`if getPixel == background: fill`) keeps the scan invariant. Afterwards the border pixel is no longer background, and it is filled if it was background in the input. Pixels that were not background keep their values. |
| `HoleFilling.ScanRows` | OrganoidArea.py:97-101 | After the first loop, no pixel in the left or right column is still background, and every such pixel that was background has been filled. |
| `HoleFilling.ScanColumns` | OrganoidArea.py:102-106 | After the second loop, no pixel in the top or bottom row is still background, and every such pixel that was background has been filled as well. |
| `HoleFilling.ScanComplete` | OrganoidArea.py:97-106 | Once all border pixels are seeded, every background pixel that is border-connected through background has been filled. |
| `HoleFilling.Remap` | OrganoidArea.py:107-113 | The final pass yields a binary image. A pixel is 0 exactly when it held the sentinel 127. |
| `HoleFilling.FillHoles` | OrganoidArea.py:90-113 | The output is binary and keeps the input's dimensions. A 0-pixel ends as 0 iff it is 4-connected through 0-pixels to the border, so an enclosed hole ends as 255. A 255-pixel always stays 255. The result equals the reachability definition `HoleFilled`. |
| `HoleFilling.HoleFreeIsFixed` | OrganoidArea.py:90-113 | Hole filling leaves unchanged a binary mask in which every 0-pixel already reaches the border. |
| `HoleFilling.HoleFilledHasNoHoles` | OrganoidArea.py:90-113 | Every 0-pixel of the output is border-connected within the output itself. |
| `HoleFilling.HoleFillingIdempotent` | OrganoidArea.py:90-113 | Filling the output again changes no pixel, for any input without sentinel pixels. |
| `Watershed.BitAndBelow` | OrganoidArea.py:88 | Bitwise AND never exceeds either operand. |
| `Watershed.AndSample` | OrganoidArea.py:88 | `Blitter.AND` on one pair of bytes. It never raises a sample. On 0/255 samples it is logical AND. |
| `Watershed.Intersect` | OrganoidArea.py:83-88 | With no segmentation the mask is unchanged. Otherwise the AND only clears pixels. On binary inputs the result is binary, and a pixel is 255 iff it is 255 in both the mask and the segmentation. |
| `Segmentation.Mask` | OrganoidArea.py:66-81 | The mask `getMask2D` returns is binary and the size of the input. A pixel is foreground iff it is foreground after thresholding and hole filling and lies on no watershed line. Every pixel at or above the threshold and off the lines is foreground. |
| `Regions.RoisFromMask` | OrganoidArea.py:115-129 | No composite means the "No organoids found" halt. Exactly one region has its origin shifted by the composite's bounds origin. With two or more regions the list is unchanged. No region is dropped, added, resized or reshaped. |
| `Regions.CorrectionIsCompositeOffset` | OrganoidArea.py:124-127 | Shifting the corrected lone region back by the composite origin recovers the region ImageJ reported. A composite at the mask origin makes the correction a no-op for any region count. |
| `Measurements.Tabulate` | OrganoidArea.py:159-177 | Rows are labelled 0, 1, 2, … with no gaps and in region order. A region has a row iff minA ≤ area ≤ maxA, with both bounds inclusive. `areas` has one entry per row, in row order. The table equals the reference filter `Kept`. |
| `Measurements.KeptConcat` | OrganoidArea.py:160-164 | The area filter distributes over concatenation: it keeps order and judges each region alone. |
| `Measurements.KeptAccepted` | OrganoidArea.py:162-164 | Every kept region comes from the input and is within the bounds. No more regions are kept than measured. |
| `Organoids.Analyse` | OrganoidArea.py:149-177 | The script halts with "No organoids found" exactly when no selection was found. Otherwise the regions are exactly those `getRoisFromMask` returned. The table holds each in-range region once, in region order and labelled 0, 1, 2, …, with its measured statistics. It equals the reference filter `Kept` over all measurements. The overlay holds the same accepted regions in the same order. |
| `Organoids.AnalyseScript` | OrganoidArea.py:159-177 | The script with its fixed bounds minA = 100 and maxA = 25000 from lines 24-25. It halts with "No organoids found" exactly when no selection was found. Otherwise a region is tabulated iff 100 ≤ area ≤ 25000. Rows are labelled 0, 1, 2, … in region order, each with the region's statistics and its area in `areas`. The overlay holds the same regions in the same order. |

## Left out

- Image acquisition, the user ROI default, and `convertToByte` (lines 131-137, 71): these are library and GUI calls. The model starts from a byte grid.
- `ip.invert()` and rolling-ball background subtraction (lines 50-52): their output only feeds library code. Rolling ball is floating-point library code.
- Kernel construction and `ip.convolve` (lines 54-61): floating-point `exp`, `sqrt` and `pi`, plus a library convolution. The model takes the convolved image as input. Note that the scale factor on line 59 parses as `(1.0/pi)*sigma**4`, not `1/(pi*sigma**4)`.
- Histogram and Triangle threshold selection (lines 63-65): library `AutoThresholder`. `thresh` is a parameter.
- Euclidean distance map and `MaximumFinder` (lines 85-86): floating-point library code. The segmented mask is supplied by a parameter function `segment`.
- Dilation (lines 77-79): `int(0.75)` is 0, so with the hard-coded sigma no `dilate()` pass runs. `Segmentation.Mask` therefore has no dilation step.
- Crop and `fillOutside` to the user ROI (lines 141-147), and polygon tracing by `ThresholdToSelection` and `ShapeRoi` (lines 116-122): library geometry. The traced composite is an input to `Regions.RoisFromMask`.
- `roi.getStatistics()` and `roi.getLength()` (lines 161, 169): library measurement. Statistics are supplied by the parameter function `measure`. Areas are integers, the uncalibrated pixel counts ImageJ reports.
- Circularity (line 170): floating-point arithmetic with pi. It is not computed.
- Histogram plotting, stroke colours, `TextRoi` labels, `ol.translate` and the display of the overlay and `ResultsTable` (lines 28-47, 153-158, 166-187): UI. Which regions the overlay holds is modelled.
- `Organoids.Analyse`: when no region is in range, the model returns an empty report. The script instead passes an empty `areas` list to `plotHistogram` (line 183). JFreeChart's `HistogramDataset.addSeries` (line 32) rejects an empty array, so the script fails there and never shows the overlay or table. That plotting call is left out.
- `Organoids.AnalyseScript`: same as `Organoids.Analyse` when no region is in range.
- `FloodFill.Fill`: does not model the order in which ImageJ's scan-line fill visits pixels, only the set it paints, which is all the script depends on.
