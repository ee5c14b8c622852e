/** The Landsat 8 Collection 2 Level-2 green-area script: QA_PIXEL cloud
    masking, the CLOUD_COVER_LAND < 30 scene filter, the NDVI >= 0.6
    classification, 30 m zonal areas, and the body of the 2020..2024 year loop
    (`GreenArea.AllYearsStats`) that merges each year's table into
    `allYearsStats`. */
module Landsat8 {
  import opened Wrappers
  import opened QaBits
  import opened GreenArea

  /** The bands the script uses at one pixel: QA_PIXEL and the surface
      reflectance digital numbers SR_B4 (red) and SR_B5 (near infrared). */
  datatype L8Pixel = L8Pixel(qaPixel: nat, srB4: int, srB5: int)

  /** One scene of the collection with its CLOUD_COVER_LAND property. */
  datatype L8Scene = L8Scene(cloudCoverLand: real, pixels: Raster<L8Pixel>)

  const DilatedCloudBit: nat := 1
  const CloudBit: nat := 3
  const CloudShadowBit: nat := 4
  const SnowBit: nat := 5

  /** Scenes with CLOUD_COVER_LAND of 30 or more are dropped. */
  const CloudCoverCeiling: real := 30.0
  const NdviThreshold: real := 0.6
  /** Landsat pixel side in metres. */
  const PixelSide: nat := 30

  /** The mask of `maskL8Clouds`: a pixel is kept when none of the dilated
      cloud, cloud, cloud shadow and snow flags is raised. */
  predicate Usable(qaPixel: nat)
  {
    var cloudDilated := BitAnd(qaPixel, Pow2(DilatedCloudBit)) != 0;
    var cloud := BitAnd(qaPixel, Pow2(CloudBit)) != 0;
    var cloudShadow := BitAnd(qaPixel, Pow2(CloudShadowBit)) != 0;
    var snow := BitAnd(qaPixel, Pow2(SnowBit)) != 0;
    !cloudDilated && !cloud && !cloudShadow && !snow
  }

  /** A pixel is usable exactly when bits 1, 3, 4 and 5 of QA_PIXEL are clear. */
  lemma UsableIff(qaPixel: nat)
    ensures Usable(qaPixel) <==> !Bit(qaPixel, 1) && !Bit(qaPixel, 3) && !Bit(qaPixel, 4) && !Bit(qaPixel, 5)
  {
    SingleBitAnd(qaPixel, 1);
    SingleBitAnd(qaPixel, 3);
    SingleBitAnd(qaPixel, 4);
    SingleBitAnd(qaPixel, 5);
  }

  /** Raising any one of the four hazard bits masks the pixel, whatever the
      other bits hold. */
  lemma HazardBitMasks(qaPixel: nat, k: nat)
    requires k == 1 || k == 3 || k == 4 || k == 5
    requires Bit(qaPixel, k)
    ensures !Usable(qaPixel)
  {
    UsableIff(qaPixel);
  }

  /** Bits outside {1, 3, 4, 5} never change the decision. */
  lemma OtherBitsIrrelevant(a: nat, b: nat)
    requires Bit(a, 1) == Bit(b, 1) && Bit(a, 3) == Bit(b, 3)
    requires Bit(a, 4) == Bit(b, 4) && Bit(a, 5) == Bit(b, 5)
    ensures Usable(a) == Usable(b)
  {
    UsableIff(a);
    UsableIff(b);
  }

  /** `maskL8Clouds`: `updateMask` with the QA mask, keeping CLOUD_COVER_LAND.
      A pixel survives exactly when it held data and none of bits 1, 3, 4, 5
      of its QA_PIXEL is set; a surviving pixel is unchanged. */
  function MaskL8Clouds(image: L8Scene): (masked: L8Scene)
    ensures masked.cloudCoverLand == image.cloudCoverLand
    ensures |masked.pixels| == |image.pixels|
    ensures forall i :: 0 <= i < |image.pixels| ==>
      (masked.pixels[i].Some? <==>
        image.pixels[i].Some? &&
        var qa := image.pixels[i].value.qaPixel;
        !Bit(qa, 1) && !Bit(qa, 3) && !Bit(qa, 4) && !Bit(qa, 5)) &&
      (masked.pixels[i].Some? ==> masked.pixels[i] == image.pixels[i])
  {
    var pixels := seq(|image.pixels|, i requires 0 <= i < |image.pixels| =>
      match image.pixels[i]
      case None => None
      case Some(p) => if Usable(p.qaPixel) then Some(p) else None);
    assert forall i :: 0 <= i < |image.pixels| && image.pixels[i].Some? ==>
      (Usable(image.pixels[i].value.qaPixel) <==>
        var qa := image.pixels[i].value.qaPixel;
        !Bit(qa, 1) && !Bit(qa, 3) && !Bit(qa, 4) && !Bit(qa, 5))
    by {
      forall i | 0 <= i < |image.pixels| && image.pixels[i].Some? {
        UsableIff(image.pixels[i].value.qaPixel);
      }
    }
    L8Scene(image.cloudCoverLand, pixels)
  }

  /** `filter(ee.Filter.lt("CLOUD_COVER_LAND", 30))`: a scene is kept exactly
      when its land cloud cover is strictly below 30, as many times as it
      occurs in the input, in the original order. */
  function FilterCloudCoverLand(scenes: seq<L8Scene>): (kept: seq<L8Scene>)
    ensures |kept| <= |scenes|
  {
    if scenes == [] then []
    else
      var init := scenes[..|scenes| - 1];
      var last := scenes[|scenes| - 1];
      assert scenes == init + [last];
      FilterCloudCoverLand(init) + (if last.cloudCoverLand < CloudCoverCeiling then [last] else [])
  }
  /** What `FilterCloudCoverLand` keeps: a scene is in the result exactly when it is in the
      input with cloudCoverLand below CloudCoverCeiling, and then exactly as many times as in
      the input; the result is a sub-multiset of the input. */
  lemma {:induction false} FilterCloudCoverLandKeeps(scenes: seq<L8Scene>)
    ensures forall s :: s in FilterCloudCoverLand(scenes) <==> s in scenes && s.cloudCoverLand < CloudCoverCeiling
    ensures multiset(FilterCloudCoverLand(scenes)) <= multiset(scenes)
    ensures forall s :: multiset(FilterCloudCoverLand(scenes))[s] == if s.cloudCoverLand < CloudCoverCeiling then multiset(scenes)[s] else 0
  {
    if scenes != [] {
      var init := scenes[..|scenes| - 1];
      var last := scenes[|scenes| - 1];
      assert scenes == init + [last];
      FilterCloudCoverLandKeeps(init);
    }
  }


  /** `.map(maskL8Clouds)` over the collection. */
  function MaskAll(scenes: seq<L8Scene>): (masked: seq<L8Scene>)
    ensures |masked| == |scenes|
    ensures forall i :: 0 <= i < |scenes| ==> masked[i] == MaskL8Clouds(scenes[i])
  {
    seq(|scenes|, i requires 0 <= i < |scenes| => MaskL8Clouds(scenes[i]))
  }

  /** The scenes that enter the median composite of one year: the window's
      scenes filtered on cloud cover, then masked. */
  function CompositeInput(scenes: seq<L8Scene>): seq<L8Scene>
  {
    MaskAll(FilterCloudCoverLand(scenes))
  }

  /** Every scene the composite sees has land cloud cover below 30, and every
      pixel it sees holds data free of all four hazard flags. */
  lemma CompositeInputClean(scenes: seq<L8Scene>)
    ensures forall s :: s in CompositeInput(scenes) ==> s.cloudCoverLand < CloudCoverCeiling
    ensures forall s, i :: s in CompositeInput(scenes) && 0 <= i < |s.pixels| && s.pixels[i].Some? ==>
      var qa := s.pixels[i].value.qaPixel;
      !Bit(qa, 1) && !Bit(qa, 3) && !Bit(qa, 4) && !Bit(qa, 5)
  {
    var kept := FilterCloudCoverLand(scenes);
    FilterCloudCoverLandKeeps(scenes);
    forall s | s in CompositeInput(scenes)
      ensures s.cloudCoverLand < CloudCoverCeiling
    {
      var j :| 0 <= j < |kept| && s == MaskL8Clouds(kept[j]);
      assert kept[j] in kept;
    }
  }

  /** One year's NDVI image. `composite` stands for `median()`, the surface
      reflectance scale and offset and `normalizedDifference(["SR_B5", "SR_B4"])`,
      which the model takes as given. */
  function YearNdvi(scenes: seq<L8Scene>, composite: seq<L8Scene> -> Raster<real>): Raster<real>
  {
    composite(CompositeInput(scenes))
  }

  /** The body of the year loop: classify, sum per district at 30 m, build rows. */
  function YearRows(year: int, scenes: seq<L8Scene>, regions: seq<LabelledDistrict>,
                    composite: seq<L8Scene> -> Raster<real>): seq<AreaRow>
  {
    YearStats(regions, Classify(YearNdvi(scenes, composite), NdviThreshold), PixelSide, year)
  }

  /** The loop body as a function of the year: `archive(y)` is the
      collection already restricted to the district bounds and to the dates
      from May 1 of year y up to, not including, Aug 31 (the end date of
      `filterDate` is exclusive). */
  function YearTable(districts: seq<District>, archive: int -> seq<L8Scene>,
                     composite: seq<L8Scene> -> Raster<real>): int -> seq<AreaRow>
  {
    var regions := WithEnglishNames(districts);
    year => YearRows(year, archive(year), regions, composite)
  }

  /** The table the year loop (`GreenArea.AllYearsStats` run on this
      script's `YearTable`) leaves in `allYearsStats`: the tables of the
      years 2020 .. 2024, merged in that order. */
  function AllYearsTable(districts: seq<District>, archive: int -> seq<L8Scene>,
                         composite: seq<L8Scene> -> Raster<real>): seq<AreaRow>
  {
    Flatten(YearBlocks(Years(), YearTable(districts, archive, composite)))
  }

  /** Row j * n + i of the merged table (n districts) is district i in year
      2020 + j: its code unchanged, its English name or "Unknown", its area
      900 m^2 per green pixel of that year's composite. */
  lemma AllYearsRow(districts: seq<District>, archive: int -> seq<L8Scene>,
                    composite: seq<L8Scene> -> Raster<real>, j: nat, i: nat)
    requires j < 5 && i < |districts|
    ensures |AllYearsTable(districts, archive, composite)| == 5 * |districts|
    ensures j * |districts| + i < 5 * |districts|
    ensures AllYearsTable(districts, archive, composite)[j * |districts| + i]
      == AreaRow(districts[i].admSectC, EnglishName(districts[i].admSectC),
                 GreenCount(YearNdvi(archive(2020 + j), composite), districts[i].cells, NdviThreshold) * 900, 2020 + j)
  {
    var regions := WithEnglishNames(districts);
    var blocks := YearBlocks(Years(), YearTable(districts, archive, composite));
    var year := 2020 + j;
    var ndvi := YearNdvi(archive(year), composite);
    assert Years()[j] == year;
    assert blocks[j] == YearStats(regions, Classify(ndvi, NdviThreshold), PixelSide, year);
    assert forall y :: 0 <= y < |blocks| ==> |blocks[y]| == |districts|;
    FlattenUniform(blocks, |districts|, j, i);
    YearStatsRow(districts, ndvi, NdviThreshold, PixelSide, year, i);
  }
}
