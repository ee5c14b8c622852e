/** The MODIS MOD13Q1 green-area script: DetailedQA masking on three multi-bit
    fields, no cloud-cover pre-filter, the native-integer NDVI threshold 6000,
    250 m zonal areas, and the body of the 2020..2024 year loop
    (`GreenArea.AllYearsStats`) merging into `allYearsStats`. */
module Modis {
  import opened Wrappers
  import opened QaBits
  import opened GreenArea

  /** The bands the script uses at one pixel: DetailedQA and the NDVI band,
      an integer scaled by 10000 (-2000 .. 10000). */
  datatype ModisPixel = ModisPixel(detailedQa: nat, ndvi: int)

  /** One 16-day MOD13Q1 scene. */
  datatype ModisScene = ModisScene(pixels: Raster<ModisPixel>)

  // The three masks the script tests. The field names here and below are the
  // labels of the script's own comments; the model checks only which bits
  // each mask covers, not the product's documentation of them.

  /** Bits 0-1 (labelled MODLAND_QA). */
  const ModlandQaMask: nat := 3
  /** Bits 2-5 (labelled VI quality). */
  const ViQualityMask: nat := 60
  /** Bits 6-7 (labelled cloud state). */
  const CloudStateMask: nat := 192

  /** NDVI 0.6 in the product's native scale (0.6 / 0.0001). */
  const NdviThresholdModis: int := 6000
  /** The product's NDVI scale factor. */
  const NdviScale: real := 0.0001
  /** MODIS pixel side in metres. */
  const PixelSide: nat := 250

  /** The mask of `maskModisClouds`: the fields at bits 0-1, 2-5 and 6-7 must
      each be 0. */
  predicate Usable(detailedQa: nat)
  {
    var modlandQaMask := BitAnd(detailedQa, ModlandQaMask) == 0;
    var viQualityMask := BitAnd(detailedQa, ViQualityMask) == 0;
    var cloudStateMask := BitAnd(detailedQa, CloudStateMask) == 0;
    modlandQaMask && viQualityMask && cloudStateMask
  }

  /** The three masks are the fields bits 0-1, 2-5 and 6-7. */
  lemma FieldMasks()
    ensures ModlandQaMask == FieldMask(0, 2)
    ensures ViQualityMask == FieldMask(2, 4)
    ensures CloudStateMask == FieldMask(6, 2)
    ensures 255 == FieldMask(0, 8)
  {
  }

  /** A pixel is usable exactly when the low 8 bits of DetailedQA are all
      clear; equivalently when `DetailedQA & 255 == 0`, or `DetailedQA % 256 == 0`. */
  lemma UsableIff(detailedQa: nat)
    ensures Usable(detailedQa) <==> forall k :: 0 <= k < 8 ==> !Bit(detailedQa, k)
    ensures Usable(detailedQa) <==> BitAnd(detailedQa, 255) == 0
    ensures Usable(detailedQa) <==> detailedQa % 256 == 0
  {
    FieldMasks();
    FieldAndZero(detailedQa, 0, 2);
    FieldAndZero(detailedQa, 2, 4);
    FieldAndZero(detailedQa, 6, 2);
    FieldAndZero(detailedQa, 0, 8);
    LowFieldClearIffMod(detailedQa, 8);
  }

  /** Bits 8 and above, whatever they encode, never change the decision. */
  lemma HighBitsIrrelevant(a: nat, b: nat)
    requires forall k :: 0 <= k < 8 ==> Bit(a, k) == Bit(b, k)
    ensures Usable(a) == Usable(b)
  {
    UsableIff(a);
    UsableIff(b);
  }

  /** `maskModisClouds`: `updateMask` with the DetailedQA mask. A pixel
      survives exactly when it held data and its low 8 QA bits are clear; a
      surviving pixel is unchanged. */
  function MaskModisClouds(image: ModisScene): (masked: ModisScene)
    ensures |masked.pixels| == |image.pixels|
    ensures forall i :: 0 <= i < |image.pixels| ==>
      (masked.pixels[i].Some? <==> image.pixels[i].Some? && image.pixels[i].value.detailedQa % 256 == 0) &&
      (masked.pixels[i].Some? ==> masked.pixels[i] == image.pixels[i])
  {
    var pixels := seq(|image.pixels|, i requires 0 <= i < |image.pixels| =>
      match image.pixels[i]
      case None => None
      case Some(p) => if Usable(p.detailedQa) then Some(p) else None);
    assert forall i :: 0 <= i < |image.pixels| && image.pixels[i].Some? ==>
      (Usable(image.pixels[i].value.detailedQa) <==> image.pixels[i].value.detailedQa % 256 == 0)
    by {
      forall i | 0 <= i < |image.pixels| && image.pixels[i].Some? {
        UsableIff(image.pixels[i].value.detailedQa);
      }
    }
    ModisScene(pixels)
  }

  /** `.map(maskModisClouds)`: no cloud-cover filter precedes it, so every
      scene of the window reaches the composite, masked. */
  function MaskAll(scenes: seq<ModisScene>): (masked: seq<ModisScene>)
    ensures |masked| == |scenes|
    ensures forall i :: 0 <= i < |scenes| ==> masked[i] == MaskModisClouds(scenes[i])
  {
    seq(|scenes|, i requires 0 <= i < |scenes| => MaskModisClouds(scenes[i]))
  }

  /** One year's NDVI composite in the product's native scale. `median`
      stands for `select("NDVI").median()`, which the model takes as given; a
      median of an even number of native integers can fall between two of
      them, so the composite holds numbers, not integers. */
  function YearNdvi(scenes: seq<ModisScene>, median: seq<ModisScene> -> Raster<real>): Raster<real>
  {
    median(MaskAll(scenes))
  }

  /** The band converted to physical NDVI with the scale factor 0.0001. */
  function Scaled(band: Raster<real>): (values: Raster<real>)
    ensures |values| == |band|
    ensures forall i :: 0 <= i < |band| ==>
      (values[i].Some? <==> band[i].Some?) && (band[i].Some? ==> values[i].value == band[i].value * NdviScale)
  {
    seq(|band|, i requires 0 <= i < |band| =>
      match band[i]
      case None => None
      case Some(v) => Some(v * NdviScale))
  }

  /** 6000 is 0.6 / 0.0001, and the export name's threshold 6000 / 10000 is 0.6. */
  lemma ThresholdConversion()
    ensures NdviThresholdModis as real == 0.6 / NdviScale
    ensures NdviThresholdModis as real / 10000.0 == 0.6
  {
  }

  /** Thresholding the native-scale composite at 6000 counts exactly the
      pixels whose physical NDVI reaches 0.6. */
  lemma {:induction false} NativeThresholdMatchesPhysical(band: Raster<real>, cells: seq<nat>)
    ensures GreenCount(band, cells, NdviThresholdModis as real)
         == GreenCount(Scaled(band), cells, 0.6)
  {
    if cells != [] {
      NativeThresholdMatchesPhysical(band, cells[..|cells| - 1]);
      var c := cells[|cells| - 1];
      if c < |band| && band[c].Some? {
        var v := band[c].value;
        assert v >= 6000.0 <==> v * NdviScale >= 0.6;
      }
    }
  }

  /** The body of the year loop: `gte(6000)`, sum per district at 250 m, build rows. */
  function YearRows(year: int, scenes: seq<ModisScene>, regions: seq<LabelledDistrict>,
                    median: seq<ModisScene> -> Raster<real>): seq<AreaRow>
  {
    YearStats(regions, Classify(YearNdvi(scenes, median), NdviThresholdModis as real), PixelSide, year)
  }

  /** The loop body as a function of the year: `archive(y)` is the
      collection already restricted to the district bounds and to the dates
      from May 1 of year y up to, not including, Aug 31 (the end date of
      `filterDate` is exclusive). */
  function YearTable(districts: seq<District>, archive: int -> seq<ModisScene>,
                     median: seq<ModisScene> -> Raster<real>): int -> seq<AreaRow>
  {
    var regions := WithEnglishNames(districts);
    year => YearRows(year, archive(year), regions, median)
  }

  /** The table the year loop (`GreenArea.AllYearsStats` run on this
      script's `YearTable`) leaves in `allYearsStats`: the tables of the
      years 2020 .. 2024, merged in that order. */
  function AllYearsTable(districts: seq<District>, archive: int -> seq<ModisScene>,
                         median: seq<ModisScene> -> Raster<real>): seq<AreaRow>
  {
    Flatten(YearBlocks(Years(), YearTable(districts, archive, median)))
  }

  /** Row j * n + i of the merged table (n districts) is district i in year
      2020 + j: its code unchanged, its English name or "Unknown", its area
      62 500 m^2 per pixel whose composite NDVI reaches 6000. */
  lemma AllYearsRow(districts: seq<District>, archive: int -> seq<ModisScene>,
                    median: seq<ModisScene> -> Raster<real>, j: nat, i: nat)
    requires j < 5 && i < |districts|
    ensures |AllYearsTable(districts, archive, median)| == 5 * |districts|
    ensures j * |districts| + i < 5 * |districts|
    ensures AllYearsTable(districts, archive, median)[j * |districts| + i]
      == AreaRow(districts[i].admSectC, EnglishName(districts[i].admSectC),
                 GreenCount(Scaled(YearNdvi(archive(2020 + j), median)), districts[i].cells, 0.6) * 62500, 2020 + j)
  {
    var regions := WithEnglishNames(districts);
    var blocks := YearBlocks(Years(), YearTable(districts, archive, median));
    var year := 2020 + j;
    var ndvi := YearNdvi(archive(year), median);
    assert Years()[j] == year;
    assert blocks[j] == YearStats(regions, Classify(ndvi, NdviThresholdModis as real), PixelSide, year);
    assert forall y :: 0 <= y < |blocks| ==> |blocks[y]| == |districts|;
    FlattenUniform(blocks, |districts|, j, i);
    YearStatsRow(districts, ndvi, NdviThresholdModis as real, PixelSide, year, i);
    NativeThresholdMatchesPhysical(ndvi, districts[i].cells);
  }
}
