# Seoul green-area NDVI scripts, modelled in Dafny

The repository has three Google Earth Engine scripts. They measure vegetation
in the 25 districts (gu) of Seoul for the summers of 2020-2024 (from May 1 up to, not including, Aug 31):

- **Landsat 8 green area.** For each year the script filters the Landsat 8
  Collection 2 Level-2 scenes to CLOUD_COVER_LAND < 30. It masks each pixel
  whose QA_PIXEL has the dilated-cloud, cloud, shadow or snow bit (1, 3, 4, 5)
  set. It takes a median composite and computes NDVI, then classifies
  NDVI >= 0.6 as green. It sums the green pixels per district and converts
  the count to square metres at 900 m² per pixel. Each year's table (code,
  English name, area, year) is merged into one table.
- **MODIS green area.** The same pipeline on MOD13Q1, with three
  differences. There is no scene-level cloud filter. Masking uses three
  DetailedQA fields (bits 0-1, 2-5 and 6-7 must all be zero). The threshold
  is compared in the product's native integer scale (6000 for NDVI 0.6), and
  each pixel covers 62 500 m².
- **Sentinel-2 visualisation and sampling.** For each year the script keeps
  scenes with CLOUDY_PIXEL_PERCENTAGE < 30. It masks clouds with the
  s2cloudless probability band (probability < 50) or falls back to QA60
  (bits 10 and 11 clear). It sorts the scenes by cloudiness, keeps the 10
  least cloudy and builds an NDVI median. It then builds one masked map
  layer per threshold 0.3 to 0.8 and samples the NDVI of every district,
  tagging each sample with its year and district name.

Modules:

- `QaBits` (qa_bits.dfy): `bitwiseAnd` on non-negative integers, and a
  bit-level vocabulary (`Bit`, `FieldClear`, `FieldMask`) in which the masks
  are characterised.
- `GreenArea` (green_area.dfy): the parts the Landsat and MODIS scripts share
  line for line. These are the code-to-English-name lookup, `gte`
  classification, the zonal sum, the row callback, `ee.List.sequence` and the
  year-by-year merge.
- `Landsat8`, `Modis`, `Sentinel2`: one module per script.
- `Wrappers`: `Option`.

An image band is a `Raster<T> = seq<Option<T>>`, where `None` is a masked
cell. A district carries the raster cells the engine assigns to it. The
Landsat and MODIS scripts run the same year loop with different loop bodies.
It is one `method` with a `while` loop, `GreenArea.AllYearsStats`, which takes
the body as a function of the year (`Landsat8.YearTable`, `Modis.YearTable`).
The method is proved equal to the merge of the per-year tables, and each
script's `AllYearsRow` lemma states what every row of that merge means. The
Sentinel-2 year loops are methods of their own.

## Model

| member | source | states |
|---|---|---|
| QaBits.BitAnd | scripts/landsat8_ndvi_green_area_calculation.js:55-58 | `bitwiseAnd` on non-negative integers, computed bit by bit from the lowest; the result is never larger than either operand, and `BitAndBit` states each of its bits |
| QaBits.BitAndBit | scripts/landsat8_ndvi_green_area_calculation.js:55-58 | bit k of `a & b` is set iff bit k is set in both a and b |
| QaBits.FieldAndZero | scripts/modis_ndvi_green_area_calculation.js:56-58 | `q & FieldMask(lo, w) == 0` iff bits lo .. lo+w-1 of q are all clear |
| QaBits.SingleBitAnd | scripts/landsat8_ndvi_green_area_calculation.js:55-58 | `q & (1 << k) != 0` iff bit k of q is set |
| QaBits.LowFieldClearIffMod | scripts/modis_ndvi_green_area_calculation.js:56-61 | the n lowest bits of q are clear iff q is a multiple of 2^n |
| GreenArea.EnglishName | scripts/landsat8_ndvi_green_area_calculation.js:38-39 | the dictionary lookup with default "Unknown"; `UnknownIffUnmapped` states which codes get which name |
| GreenArea.UnknownIffUnmapped | scripts/landsat8_ndvi_green_area_calculation.js:37-41 | the name is "Unknown" iff the code is not among the 25 mapped codes; a mapped code gets its mapped name |
| GreenArea.WithEnglishNames | scripts/landsat8_ndvi_green_area_calculation.js:37-41 | every district is kept, in order and unchanged, labelled with the looked-up English name |
| GreenArea.Classify | scripts/landsat8_ndvi_green_area_calculation.js:115 | a cell is 1 iff it holds NDVI >= threshold, masked iff the NDVI cell is masked, and otherwise 0 |
| GreenArea.ZonalSum | scripts/landsat8_ndvi_green_area_calculation.js:121-127 | `reduceRegions` with `Reducer.sum()`: the sum of the unmasked samples at the district's cells; `ZonalSumOfClassified` states that on the classified band it is the green count |
| GreenArea.ZonalSumOfClassified | scripts/landsat8_ndvi_green_area_calculation.js:115-127 | the zonal sum of the classified band equals the number of the district's cells holding NDVI >= threshold |
| GreenArea.GreenCountAntitone | scripts/landsat8_ndvi_green_area_calculation.js:83-115 | raising the threshold never increases the green count |
| GreenArea.GreenCountNoData | scripts/landsat8_ndvi_green_area_calculation.js:97-106 | a region none of whose cells holds data in the composite (every scene masked it at line 97, so the median at line 106 has no value there, or the cell lies outside the image) has green count 0 at any threshold |
| GreenArea.ThirtyMetreExample | scripts/landsat8_ndvi_green_area_calculation.js:115-139 | four cells with NDVI 0.7, 0.5, 0.65, 0.9 at threshold 0.6 and 30 m pixels give a sum of 3 and the row with 2700 m² |
| GreenArea.ZonalRow | scripts/landsat8_ndvi_green_area_calculation.js:130-138 | the row callback: code, English name, `sum × pixelAreaSqM` and the year; `YearStatsRow` states what each field of a year's row holds |
| GreenArea.YearStats | scripts/landsat8_ndvi_green_area_calculation.js:117-139 | one row per district, in district order (`|rows| == |regions|`); `YearStatsRow` states row i |
| GreenArea.YearStatsRow | scripts/landsat8_ndvi_green_area_calculation.js:117-139 | row i of a year's table has district i's code unchanged, its English name, area = green cells × side² (never negative), and the year |
| GreenArea.YearSequence | scripts/landsat8_ndvi_green_area_calculation.js:77 | `ee.List.sequence(first, last)` is first, first+1, ..., last (empty when last < first) |
| GreenArea.Years | scripts/landsat8_ndvi_green_area_calculation.js:77 | the year list is exactly 2020, 2021, 2022, 2023, 2024 |
| GreenArea.Flatten | scripts/landsat8_ndvi_green_area_calculation.js:141 | collections merged left to right, as repeated `merge` does; `FlattenPrefix`, `FlattenUniform` and `FlattenMember` state its order, positions and membership |
| GreenArea.FlattenPrefix | scripts/landsat8_ndvi_green_area_calculation.js:141 | merging later tables leaves the rows of the earlier merges as a prefix |
| GreenArea.FlattenUniform | scripts/landsat8_ndvi_green_area_calculation.js:141 | merging tables of n rows each puts row k of table j at position j·n + k, for a total of (tables × n) rows |
| GreenArea.FlattenMember | scripts/sentinel2_ndvi_visualization_sampling.js:125 | an element is in the flattened collection iff it is in one of the collections |
| GreenArea.YearBlocks | scripts/landsat8_ndvi_green_area_calculation.js:88-139 | one table per year, as many as there are years, in the order of the year list |
| GreenArea.AllYearsStats | scripts/landsat8_ndvi_green_area_calculation.js:77-142 | the year loop of both green-area scripts (the MODIS loop is scripts/modis_ndvi_green_area_calculation.js:69-125): after it, `allYearsStats` is the merge, in year order 2020..2024, of each year's table |
| GreenArea.EarlierYearsKept | scripts/landsat8_ndvi_green_area_calculation.js:141 | the table after the first k years is a prefix of the final merged table |
| Landsat8.Usable | scripts/landsat8_ndvi_green_area_calculation.js:55-64 | the script's four `bitwiseAnd(1 << k).neq(0)` tests combined with `not`/`and`; `UsableIff` states that it keeps a pixel iff bits 1, 3, 4, 5 are clear |
| Landsat8.UsableIff | scripts/landsat8_ndvi_green_area_calculation.js:55-64 | the QA mask keeps a pixel iff bits 1, 3, 4 and 5 of QA_PIXEL are all clear |
| Landsat8.HazardBitMasks | scripts/landsat8_ndvi_green_area_calculation.js:55-64 | any one of bits 1, 3, 4, 5 set masks the pixel, whatever the other bits hold |
| Landsat8.OtherBitsIrrelevant | scripts/landsat8_ndvi_green_area_calculation.js:48-64 | two QA values that agree on bits 1, 3, 4, 5 get the same decision |
| Landsat8.MaskL8Clouds | scripts/landsat8_ndvi_green_area_calculation.js:45-72 | a pixel survives iff it held data with bits 1, 3, 4, 5 clear; survivors are unchanged; CLOUD_COVER_LAND is kept |
| Landsat8.FilterCloudCoverLand | scripts/landsat8_ndvi_green_area_calculation.js:96 | `filter(ee.Filter.lt("CLOUD_COVER_LAND", 30))`, never longer than its input; `FilterCloudCoverLandKeeps` states which scenes it keeps and how many times |
| Landsat8.FilterCloudCoverLandKeeps | scripts/landsat8_ndvi_green_area_calculation.js:96 | a scene is in the filtered collection iff it is in the input with CLOUD_COVER_LAND < 30, and then exactly as many times as in the input; the result is a sub-multiset of the input |
| Landsat8.MaskAll | scripts/landsat8_ndvi_green_area_calculation.js:97 | `map(maskL8Clouds)`: every scene replaced by its masked version, in order |
| Landsat8.CompositeInput | scripts/landsat8_ndvi_green_area_calculation.js:92-99 | the collection chain before `median()`: filter, then mask; `CompositeInputClean` states what reaches the median |
| Landsat8.CompositeInputClean | scripts/landsat8_ndvi_green_area_calculation.js:92-99 | every scene reaching the median has CLOUD_COVER_LAND < 30, and every pixel it holds has bits 1, 3, 4, 5 clear |
| Landsat8.YearNdvi | scripts/landsat8_ndvi_green_area_calculation.js:106-112 | the NDVI image of a year: the compositing parameter applied to the filtered, masked scenes; `AllYearsRow` states the areas computed from it |
| Landsat8.YearRows | scripts/landsat8_ndvi_green_area_calculation.js:114-139 | the loop body: `gte(0.6)`, the zonal sum per district at 30 m, and 900 m² rows; `AllYearsRow` states each of its rows in the merged table |
| Landsat8.YearTable | scripts/landsat8_ndvi_green_area_calculation.js:88-139 | the loop body as a function of the year, reading that year's window of the archive; the argument `GreenArea.AllYearsStats` runs on |
| Landsat8.AllYearsTable | scripts/landsat8_ndvi_green_area_calculation.js:77-142 | the merge in year order of `YearTable`'s tables, which `GreenArea.AllYearsStats` returns for this script; `AllYearsRow` states its every row |
| Landsat8.AllYearsRow | scripts/landsat8_ndvi_green_area_calculation.js:88-141 | the merged table has 5n rows; row j·n + i is the row (code of district i, its English name, green pixels of year 2020 + j's composite × 900, 2020 + j) |
| Modis.FieldMasks | scripts/modis_ndvi_green_area_calculation.js:48-58 | 3, 60 and 192 are the masks of bits 0-1, 2-5 and 6-7, and 255 that of bits 0-7 |
| Modis.Usable | scripts/modis_ndvi_green_area_calculation.js:56-61 | the script's three tests `bitwiseAnd(3)`, `bitwiseAnd(60)`, `bitwiseAnd(192)` `.eq(0)` combined with `and`; `UsableIff` states that it keeps a pixel iff bits 0-7 are clear |
| Modis.UsableIff | scripts/modis_ndvi_green_area_calculation.js:56-61 | the three field tests keep a pixel iff bits 0-7 are all clear, iff `DetailedQA & 255 == 0`, iff DetailedQA is a multiple of 256 |
| Modis.HighBitsIrrelevant | scripts/modis_ndvi_green_area_calculation.js:52-61 | bits 8 and up, whatever they encode, never change the decision |
| Modis.MaskModisClouds | scripts/modis_ndvi_green_area_calculation.js:45-64 | a pixel survives iff it held data and DetailedQA mod 256 is 0; survivors are unchanged |
| Modis.MaskAll | scripts/modis_ndvi_green_area_calculation.js:88-92 | every scene of the window is masked and kept (no scene-level cloud filter), in order |
| Modis.YearNdvi | scripts/modis_ndvi_green_area_calculation.js:88-94 | the native-scale NDVI composite of a year: the `median` parameter applied to the masked scenes |
| Modis.Scaled | scripts/modis_ndvi_green_area_calculation.js:75-77 | each physical NDVI value is the native-scale composite value × 0.0001; masked cells stay masked |
| Modis.ThresholdConversion | scripts/modis_ndvi_green_area_calculation.js:77-79 | 6000 = 0.6 / 0.0001, and the export name's 6000 / 10000 is 0.6 |
| Modis.NativeThresholdMatchesPhysical | scripts/modis_ndvi_green_area_calculation.js:75-98 | counting native-scale composite values >= 6000 counts exactly the cells whose physical NDVI is >= 0.6, for every composite (integer or not) and region |
| Modis.YearRows | scripts/modis_ndvi_green_area_calculation.js:96-122 | the loop body: `gte(6000)` on the native-scale composite, the zonal sum per district at 250 m, and 62 500 m² rows; `AllYearsRow` states each of its rows in the merged table |
| Modis.YearTable | scripts/modis_ndvi_green_area_calculation.js:84-122 | the loop body as a function of the year, reading that year's window of the archive; the argument `GreenArea.AllYearsStats` runs on |
| Modis.AllYearsTable | scripts/modis_ndvi_green_area_calculation.js:69-125 | the merge in year order of `YearTable`'s tables, which `GreenArea.AllYearsStats` returns for this script; `AllYearsRow` states its every row |
| Modis.AllYearsRow | scripts/modis_ndvi_green_area_calculation.js:84-124 | the merged table has 5n rows; row j·n + i is the row (code of district i, its English name, cells of physical NDVI >= 0.6 in year 2020 + j's composite × 62 500, 2020 + j) |
| Sentinel2.Qa60Usable | scripts/sentinel2_ndvi_visualization_sampling.js:7-14 | the two tests `bitwiseAnd(2^10).eq(0)` and `bitwiseAnd(2^11).eq(0)` combined with `and`; `Qa60UsableIff` states that it keeps a pixel iff bits 10 and 11 are clear |
| Sentinel2.Qa60UsableIff | scripts/sentinel2_ndvi_visualization_sampling.js:7-16 | the QA60 mask keeps a pixel iff bits 10 and 11 are clear |
| Sentinel2.Qa60OtherBitsIrrelevant | scripts/sentinel2_ndvi_visualization_sampling.js:9-14 | QA60 values agreeing on bits 10 and 11 get the same decision |
| Sentinel2.CellUsable | scripts/sentinel2_ndvi_visualization_sampling.js:20-24 | the mask of `cloudMaskS2` at one cell: probability < 50 with a probability band, the QA60 rule without one; `CloudMaskS2` states which pixels survive |
| Sentinel2.CloudMaskS2 | scripts/sentinel2_ndvi_visualization_sampling.js:19-26 | with a probability band a pixel survives iff it held data with probability < 50; without one, iff it held data with QA60 bits 10, 11 clear; survivors and properties unchanged |
| Sentinel2.FilterCloudyPixelPercentage | scripts/sentinel2_ndvi_visualization_sampling.js:35 | `filter(ee.Filter.lt("CLOUDY_PIXEL_PERCENTAGE", 30))`, never longer than its input; `FilterCloudyPixelPercentageKeeps` states which scenes it keeps and how many times |
| Sentinel2.FilterCloudyPixelPercentageKeeps | scripts/sentinel2_ndvi_visualization_sampling.js:35 | a scene is in the filtered collection iff it is in the input with CLOUDY_PIXEL_PERCENTAGE < 30, and then exactly as many times as in the input; a sub-multiset of the input |
| Sentinel2.MaskAll | scripts/sentinel2_ndvi_visualization_sampling.js:50 | each scene is replaced by its masked version, in order |
| Sentinel2.Insert | scripts/sentinel2_ndvi_visualization_sampling.js:52 | inserting into a list sorted by cloudiness gives a sorted list holding exactly the old scenes plus the new one |
| Sentinel2.SortByCloud | scripts/sentinel2_ndvi_visualization_sampling.js:52 | the result is in non-decreasing CLOUDY_PIXEL_PERCENTAGE and is a permutation of the input |
| Sentinel2.Limit | scripts/sentinel2_ndvi_visualization_sampling.js:53 | `limit(n)` is a prefix of length min(n, size) |
| Sentinel2.Candidates | scripts/sentinel2_ndvi_visualization_sampling.js:31-50 | the scenes the percentage filter keeps, each masked: the input of the sort; `CandidatesBelowCeiling` states their bound |
| Sentinel2.SelectScenes | scripts/sentinel2_ndvi_visualization_sampling.js:31-53 | the collection chain of `getNDVI`: filter, mask, sort by CLOUDY_PIXEL_PERCENTAGE, `limit(10)`; `SelectScenesProperties` states what it selects |
| Sentinel2.CandidatesBelowCeiling | scripts/sentinel2_ndvi_visualization_sampling.js:35-50 | every scene that passes filter and mask has percentage < 30 |
| Sentinel2.SelectionSplit | scripts/sentinel2_ndvi_visualization_sampling.js:52-53 | the selection is the first scenes of the sorted candidates, and the candidates left out are exactly the rest |
| Sentinel2.SelectionSortedAndBounded | scripts/sentinel2_ndvi_visualization_sampling.js:52-53 | the selection has min(10, candidates) scenes in non-decreasing cloudiness |
| Sentinel2.SelectionBelowCeiling | scripts/sentinel2_ndvi_visualization_sampling.js:35-53 | every selected scene has percentage < 30 |
| Sentinel2.SelectionKeepsLeastCloudy | scripts/sentinel2_ndvi_visualization_sampling.js:52-53 | no candidate left out is strictly less cloudy than a selected one |
| Sentinel2.SelectScenesProperties | scripts/sentinel2_ndvi_visualization_sampling.js:31-53 | the scenes reaching the median: at most 10, sorted, a sub-multiset of the candidates, each below 30, and the least cloudy ones |
| Sentinel2.GetNdvi | scripts/sentinel2_ndvi_visualization_sampling.js:29-59 | `getNDVI`: the compositing parameter (`median()` and `normalizedDifference(["B8", "B4"])`) applied to the selected scenes; `NdviImages` states that each year's key holds it |
| Sentinel2.NdviImages | scripts/sentinel2_ndvi_visualization_sampling.js:63-82 | after the loop `ndviImages` has exactly the keys 2020 to 2024, each bound to that year's NDVI image |
| Sentinel2.VisibleAbove | scripts/sentinel2_ndvi_visualization_sampling.js:93 | a cell stays visible iff it holds NDVI >= threshold; visible cells keep their value |
| Sentinel2.YearLayers | scripts/sentinel2_ndvi_visualization_sampling.js:85-99 | six layers; layer k has the year, threshold `Thresholds[k]` and an image of the same size in which a cell is visible iff it holds NDVI >= that threshold, keeping its value |
| Sentinel2.ThresholdLayerAt | scripts/sentinel2_ndvi_visualization_sampling.js:88-100 | the loop's output has 30 layers; layer 6·j + k is year 2020 + j at the k-th threshold and shows exactly that year's cells with NDVI >= the threshold |
| Sentinel2.AllLayers | scripts/sentinel2_ndvi_visualization_sampling.js:88-100 | the six layers of each year, year after year; `ThresholdLayerAt` states its layer 6·j + k and `ThresholdLayers` that the loop produces it |
| Sentinel2.ThresholdLayers | scripts/sentinel2_ndvi_visualization_sampling.js:88-100 | the nested loop produces, year after year, the six threshold layers of each year's image |
| Sentinel2.LayersNested | scripts/sentinel2_ndvi_visualization_sampling.js:85-93 | a cell visible at a higher threshold is visible at every lower threshold of the same year |
| Sentinel2.ValidCount | scripts/sentinel2_ndvi_visualization_sampling.js:104-108 | at most one count per cell of the region |
| Sentinel2.VisibleCountIsGreenCount | scripts/sentinel2_ndvi_visualization_sampling.js:93 | the cells a threshold layer shows in a region are as many as the region's green cells at that threshold |
| Sentinel2.SampleCells | scripts/sentinel2_ndvi_visualization_sampling.js:103-116 | one sample per unmasked cell of the region, each tagged with the year and district; for every value v, the number of samples with NDVI v equals the number of the region's cells holding v |
| Sentinel2.DistrictSamples | scripts/sentinel2_ndvi_visualization_sampling.js:103-117 | one sample list per district, in district order, each the `SampleCells` of that district's cells tagged with its SGG_NM |
| Sentinel2.SampleNdviByDistrict | scripts/sentinel2_ndvi_visualization_sampling.js:103-118 | `sampleNDVIByDistrict`: the districts' sample lists merged; `SamplesTagged` states what every sample carries |
| Sentinel2.SamplesTagged | scripts/sentinel2_ndvi_visualization_sampling.js:103-118 | every sample of a year carries that year and some district's SGG_NM, and its NDVI is a value of that district's cells |
| Sentinel2.MergedSamples | scripts/sentinel2_ndvi_visualization_sampling.js:120-125 | `years.map(...)` then `flatten()`: every year's samples, year after year; `MergedSamplesYears` states their years |
| Sentinel2.MergedSamplesYears | scripts/sentinel2_ndvi_visualization_sampling.js:121-125 | every merged sample carries one of the loop's years |

## Left out

- Earth Engine's compositing is a function parameter and is not computed.
  This covers `median()`, Landsat's surface-reflectance scale and offset
  (0.0000275, -0.2) and `normalizedDifference`. It is the `composite` or
  `median` argument of `YearNdvi`/`GetNdvi`. The properties proved hold for
  every such function.
- `filterDate` / `filterBounds` are not modelled. The `archive(year)`
  parameter stands for the collection already restricted to the district
  bounds and to the dates from May 1 of that year up to, not including,
  Aug 31 (the end date of `filterDate` is exclusive, so scenes of Aug 31 are
  not included).
- Which pixels fall in a district polygon is an input (`District.cells`).
  `reduceRegions`/`sampleRegions` at a given scale and CRS, and fractional
  boundary weighting, are not modelled. A cell outside the image counts as
  no data.
- The S2_CLOUD_PROBABILITY join (same system:index, first match) is the
  scene's `probability` field: `Some` when a match was found, `None`
  otherwise. `None` models the intended behaviour of the conditional at
  scripts/sentinel2_ndvi_visualization_sampling.js:46-48, which leaves a
  scene without a match unchanged. As written, that conditional tests a
  server-side object, which is always truthy on the client. So `addBands` is
  always taken, and a scene without a match makes the computation fail
  instead of falling back. This is the same kind of ternary as in
  `cloudMaskS2` (next line).
- Sentinel2.CloudMaskS2 models the documented intent: probability < 50 when
  the band is present, QA60 otherwise. In the script the server-side
  `contains(...)` object used in a JavaScript ternary is always truthy, so
  the QA60 fallback is never taken as written. That reading depends on the
  client library's semantics, which are not part of this model.
- Sentinel2.CloudMaskS2: the `None` branch models the QA60 rule alone (a
  pixel survives iff bits 10 and 11 are clear). As written, the fallback at
  scripts/sentinel2_ndvi_visualization_sampling.js:24 passes the whole image
  that `cloudMaskQA60` returns (line 15) to `updateMask` at line 25, not its
  mask. Each band would then also be masked wherever its own value is 0.
  The model does not capture that extra per-band masking.
- Sentinel2.SortByCloud fixes one order for scenes of equal cloudiness.
  Earth Engine's tie order is unspecified, so only sortedness and
  permutation are claimed.
- Landsat's `.filter(ee.Filter.neq("system:index", null))` and the band
  `select` calls are treated as no-ops. Every scene has an index, and the
  model keeps only the bands the scripts read.
- A year with no scene left in its window (after the CLOUD_COVER_LAND
  filter for Landsat and the CLOUDY_PIXEL_PERCENTAGE filter for Sentinel-2)
  makes `median()` an image without bands. `normalizedDifference` or `gte`
  then has no band to read, and the script fails when `print` or
  `Export.table.toDrive` evaluates the merged result
  (scripts/landsat8_ndvi_green_area_calculation.js:102-112 and 144-157,
  scripts/modis_ndvi_green_area_calculation.js:88-98 and 127-137,
  scripts/sentinel2_ndvi_visualization_sampling.js:55-57). The model has no
  failure path: `composite`/`median` is an arbitrary function, and nothing
  is claimed about its value on an empty collection.
- The error callback of `years.evaluate` (for example
  scripts/landsat8_ndvi_green_area_calculation.js:159-161) only reports a
  failure to evaluate the year list itself. It is not modelled: the year
  list is the constant `Years()`.
- Floating-point rounding is not modelled. NDVI values and the 0.0001 scale
  are exact reals; areas are exact integers.
- Clipping, `Map.addLayer`/`centerObject`, `print` and `Export.table.toDrive`
  are not modelled: they are display and I/O. A layer is returned as a
  `Layer` value (year, threshold, image) instead of being drawn. The export's
  column selection (code, name_eng, area_m2, year) is the `AreaRow`
  datatype itself.
- Landsat and MODIS have no 10-scene limit: the code applies `limit(10)` only
  in the Sentinel-2 script, and the model follows the code.
- `sampleRegions(..., geometries: true)` point geometries are not kept in
  `NdviSample`. Only NDVI, year and district are modelled, the properties the
  final `select` keeps.
- The MODIS field names (MODLAND_QA, VI quality, cloud state) are the
  labels in the script's own comments
  (scripts/modis_ndvi_green_area_calculation.js:48-53). The model
  establishes only which bits each mask covers (bits 0-7, `Modis.FieldMasks`)
  and that no other bit matters (`Modis.HighBitsIrrelevant`). It does not
  check the product's own documentation of what those bits encode.
