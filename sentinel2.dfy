/** The Sentinel-2 NDVI visualisation and sampling script: QA60 and
    s2cloudless cloud masks, the scene selection of `getNDVI` (cloudy pixel
    percentage below 30, sorted ascending, at most 10 scenes), the per-year
    NDVI images kept in `ndviImages`, the per-threshold masked layers, and the
    per-district NDVI samples tagged with year and district. */
module Sentinel2 {
  import opened Wrappers
  import opened QaBits
  import opened GreenArea

  /** The bands the script uses at one pixel: QA60, B4 (red), B8 (near infrared). */
  datatype S2Pixel = S2Pixel(qa60: nat, b4: int, b8: int)

  /** One scene with its CLOUDY_PIXEL_PERCENTAGE property and, when the
      s2cloudless scene of the same system:index was joined, its
      `probability` band (cloud probability in percent, one value per cell). */
  datatype S2Scene = S2Scene(cloudyPixelPercentage: real, pixels: Raster<S2Pixel>, probability: Option<seq<int>>)

  const CloudBit: nat := 10
  const CirrusBit: nat := 11
  /** A cell whose cloud probability reaches 50 is masked. */
  const CloudProbabilityLimit: int := 50
  /** Scenes whose cloudy pixel percentage reaches 30 are dropped. */
  const CloudyPixelCeiling: real := 30.0
  /** At most this many scenes enter the composite. */
  const SceneLimit: nat := 10

  /** The mask of `cloudMaskQA60`: neither the opaque cloud bit (2^10) nor the
      cirrus bit (2^11) is set. */
  predicate Qa60Usable(qa60: nat)
  {
    BitAnd(qa60, Pow2(CloudBit)) == 0 && BitAnd(qa60, Pow2(CirrusBit)) == 0
  }

  /** QA60 keeps a pixel exactly when bits 10 and 11 are clear. */
  lemma Qa60UsableIff(qa60: nat)
    ensures Qa60Usable(qa60) <==> !Bit(qa60, 10) && !Bit(qa60, 11)
  {
    SingleBitAnd(qa60, 10);
    SingleBitAnd(qa60, 11);
  }

  /** Bits other than 10 and 11 never change the QA60 decision. */
  lemma Qa60OtherBitsIrrelevant(a: nat, b: nat)
    requires Bit(a, 10) == Bit(b, 10) && Bit(a, 11) == Bit(b, 11)
    ensures Qa60Usable(a) == Qa60Usable(b)
  {
    Qa60UsableIff(a);
    Qa60UsableIff(b);
  }

  /** The mask of `cloudMaskS2` at cell i: with a probability band, the cell is
      kept when its probability is below 50; without one, the QA60 rule decides. */
  predicate CellUsable(image: S2Scene, i: nat)
    requires i < |image.pixels|
  {
    match image.probability
    case Some(probability) => i < |probability| && probability[i] < CloudProbabilityLimit
    case None => image.pixels[i].Some? && Qa60Usable(image.pixels[i].value.qa60)
  }

  /** `cloudMaskS2`: a pixel survives exactly when it held data and the
      probability rule (or, without a probability band, the QA60 rule) keeps
      it; surviving pixels and the scene's properties are unchanged. */
  function CloudMaskS2(image: S2Scene): (masked: S2Scene)
    ensures masked.cloudyPixelPercentage == image.cloudyPixelPercentage
    ensures masked.probability == image.probability
    ensures |masked.pixels| == |image.pixels|
    ensures forall i :: 0 <= i < |image.pixels| ==>
      (masked.pixels[i].Some? ==> masked.pixels[i] == image.pixels[i]) &&
      (image.probability.Some? ==>
        (masked.pixels[i].Some? <==>
          (image.pixels[i].Some? && i < |image.probability.value| && image.probability.value[i] < 50))) &&
      (image.probability.None? ==>
        (masked.pixels[i].Some? <==>
          (image.pixels[i].Some? && !Bit(image.pixels[i].value.qa60, 10) && !Bit(image.pixels[i].value.qa60, 11))))
  {
    var pixels := seq(|image.pixels|, i requires 0 <= i < |image.pixels| =>
      if image.pixels[i].Some? && CellUsable(image, i) then image.pixels[i] else None);
    assert forall i :: 0 <= i < |image.pixels| && image.pixels[i].Some? ==>
      (Qa60Usable(image.pixels[i].value.qa60) <==>
        !Bit(image.pixels[i].value.qa60, 10) && !Bit(image.pixels[i].value.qa60, 11))
    by {
      forall i | 0 <= i < |image.pixels| && image.pixels[i].Some? {
        Qa60UsableIff(image.pixels[i].value.qa60);
      }
    }
    S2Scene(image.cloudyPixelPercentage, pixels, image.probability)
  }

  /** `filter(ee.Filter.lt("CLOUDY_PIXEL_PERCENTAGE", 30))`: a scene is kept
      exactly when its cloudy pixel percentage is strictly below 30, as many
      times as it occurs in the input, order kept. */
  function FilterCloudyPixelPercentage(scenes: seq<S2Scene>): (kept: seq<S2Scene>)
    ensures |kept| <= |scenes|
  {
    if scenes == [] then []
    else
      var init := scenes[..|scenes| - 1];
      var last := scenes[|scenes| - 1];
      assert scenes == init + [last];
      FilterCloudyPixelPercentage(init) + (if last.cloudyPixelPercentage < CloudyPixelCeiling then [last] else [])
  }
  /** What `FilterCloudyPixelPercentage` keeps: a scene is in the result exactly when it is in the
      input with cloudyPixelPercentage below CloudyPixelCeiling, and then exactly as many times as in
      the input; the result is a sub-multiset of the input. */
  lemma {:induction false} FilterCloudyPixelPercentageKeeps(scenes: seq<S2Scene>)
    ensures forall s :: s in FilterCloudyPixelPercentage(scenes) <==> s in scenes && s.cloudyPixelPercentage < CloudyPixelCeiling
    ensures multiset(FilterCloudyPixelPercentage(scenes)) <= multiset(scenes)
    ensures forall s :: multiset(FilterCloudyPixelPercentage(scenes))[s] == if s.cloudyPixelPercentage < CloudyPixelCeiling then multiset(scenes)[s] else 0
  {
    if scenes != [] {
      var init := scenes[..|scenes| - 1];
      var last := scenes[|scenes| - 1];
      assert scenes == init + [last];
      FilterCloudyPixelPercentageKeeps(init);
    }
  }


  /** `.map(cloudMaskS2)` over the collection. */
  function MaskAll(scenes: seq<S2Scene>): (masked: seq<S2Scene>)
    ensures |masked| == |scenes|
    ensures forall i :: 0 <= i < |scenes| ==> masked[i] == CloudMaskS2(scenes[i])
  {
    seq(|scenes|, i requires 0 <= i < |scenes| => CloudMaskS2(scenes[i]))
  }

  /** Non-decreasing cloudy pixel percentage. */
  ghost predicate SortedByCloud(scenes: seq<S2Scene>)
  {
    forall i, j :: 0 <= i < j < |scenes| ==> scenes[i].cloudyPixelPercentage <= scenes[j].cloudyPixelPercentage
  }

  /** A lower bound of every scene in `xs` and of `extra` bounds every scene of
      a list holding exactly those scenes. */
  lemma LowerBoundCarries(bound: real, xs: seq<S2Scene>, extra: S2Scene, ys: seq<S2Scene>)
    requires forall j :: 0 <= j < |xs| ==> bound <= xs[j].cloudyPixelPercentage
    requires bound <= extra.cloudyPixelPercentage
    requires multiset(ys) == multiset(xs) + multiset{extra}
    ensures forall j :: 0 <= j < |ys| ==> bound <= ys[j].cloudyPixelPercentage
  {
    forall j | 0 <= j < |ys|
      ensures bound <= ys[j].cloudyPixelPercentage
    {
      assert ys[j] in multiset(ys);
      if ys[j] != extra {
        assert ys[j] in multiset(xs);
        var t :| 0 <= t < |xs| && xs[t] == ys[j];
      }
    }
  }

  /** Insert a scene into a list sorted by cloudy pixel percentage, after the
      scenes whose percentage is not greater. */
  function Insert(scene: S2Scene, sorted: seq<S2Scene>): (r: seq<S2Scene>)
    requires SortedByCloud(sorted)
    ensures |r| == |sorted| + 1
    ensures SortedByCloud(r)
    ensures multiset(r) == multiset(sorted) + multiset{scene}
  {
    if sorted == [] then [scene]
    else if scene.cloudyPixelPercentage < sorted[0].cloudyPixelPercentage then
      PrependSorted(scene, sorted);
      [scene] + sorted
    else
      var head := sorted[0];
      var tail := sorted[1..];
      assert sorted == [head] + tail;
      var rest := Insert(scene, tail);
      LowerBoundCarries(head.cloudyPixelPercentage, tail, scene, rest);
      PrependSorted(head, rest);
      [head] + rest
  }

  /** A scene no cloudier than every scene of a sorted list can go in front of it. */
  lemma PrependSorted(first: S2Scene, sorted: seq<S2Scene>)
    requires SortedByCloud(sorted)
    requires forall j :: 0 <= j < |sorted| ==> first.cloudyPixelPercentage <= sorted[j].cloudyPixelPercentage
    ensures SortedByCloud([first] + sorted)
  {
  }

  /** `sort("CLOUDY_PIXEL_PERCENTAGE")`: ascending, a permutation of the input. */
  function SortByCloud(scenes: seq<S2Scene>): (sorted: seq<S2Scene>)
    ensures SortedByCloud(sorted)
    ensures multiset(sorted) == multiset(scenes)
    ensures |sorted| == |scenes|
  {
    if scenes == [] then []
    else
      var init := scenes[..|scenes| - 1];
      assert scenes == init + [scenes[|scenes| - 1]];
      Insert(scenes[|scenes| - 1], SortByCloud(init))
  }

  /** `limit(n)`: the first n scenes, or all of them when there are fewer. */
  function Limit(scenes: seq<S2Scene>, n: nat): (first: seq<S2Scene>)
    ensures |first| == if |scenes| <= n then |scenes| else n
    ensures first <= scenes
  {
    if |scenes| <= n then scenes else scenes[..n]
  }

  /** The scenes the cloud-percentage filter keeps, masked: the candidates of
      the selection. */
  function Candidates(scenes: seq<S2Scene>): seq<S2Scene>
  {
    MaskAll(FilterCloudyPixelPercentage(scenes))
  }

  /** The collection chain of `getNDVI`: filter, mask, sort, limit(10). */
  function SelectScenes(scenes: seq<S2Scene>): seq<S2Scene>
  {
    Limit(SortByCloud(Candidates(scenes)), SceneLimit)
  }

  /** Every candidate has a cloudy pixel percentage below 30. */
  lemma CandidatesBelowCeiling(scenes: seq<S2Scene>)
    ensures forall s: S2Scene :: s in multiset(Candidates(scenes)) ==> s.cloudyPixelPercentage < CloudyPixelCeiling
  {
    var filtered := FilterCloudyPixelPercentage(scenes);
    var candidates := Candidates(scenes);
    FilterCloudyPixelPercentageKeeps(scenes);
    forall s: S2Scene | s in multiset(candidates) ensures s.cloudyPixelPercentage < CloudyPixelCeiling {
      var i :| 0 <= i < |candidates| && candidates[i] == s;
      assert filtered[i] in filtered;
    }
  }

  /** In a sorted list, nothing after position k is strictly below anything before it. */
  lemma SortedPrefixLeast(sorted: seq<S2Scene>, k: nat)
    requires SortedByCloud(sorted) && k <= |sorted|
    ensures forall dropped: S2Scene, kept: S2Scene :: dropped in multiset(sorted[k..]) && kept in sorted[..k] ==>
      kept.cloudyPixelPercentage <= dropped.cloudyPixelPercentage
  {
  }

  /** The selection is the first min(10, n) scenes of the sorted candidates,
      and the rest of that sorted list is what it leaves out. */
  lemma SelectionSplit(scenes: seq<S2Scene>)
    ensures var sorted := SortByCloud(Candidates(scenes));
      var k := |SelectScenes(scenes)|;
      SelectScenes(scenes) == sorted[..k] &&
      multiset(Candidates(scenes)) - multiset(SelectScenes(scenes)) == multiset(sorted[k..]) &&
      multiset(SelectScenes(scenes)) <= multiset(Candidates(scenes))
  {
    var sorted := SortByCloud(Candidates(scenes));
    var k := |SelectScenes(scenes)|;
    assert SelectScenes(scenes) == sorted[..k];
    PrefixAndRest(sorted, k);
  }

  /** Splitting a list at k: the first k elements and the rest together hold
      every element exactly as often as the list does. */
  lemma PrefixAndRest(xs: seq<S2Scene>, k: nat)
    requires k <= |xs|
    ensures multiset(xs) - multiset(xs[..k]) == multiset(xs[k..])
    ensures multiset(xs[..k]) <= multiset(xs)
  {
    assert xs == xs[..k] + xs[k..];
  }

  /** At most 10 scenes (all candidates when there are at most 10), in
      non-decreasing cloudy pixel percentage. */
  lemma SelectionSortedAndBounded(scenes: seq<S2Scene>)
    ensures |SelectScenes(scenes)| == if |Candidates(scenes)| <= 10 then |Candidates(scenes)| else 10
    ensures SortedByCloud(SelectScenes(scenes))
  {
  }

  /** Every selected scene has a cloudy pixel percentage below 30. */
  lemma SelectionBelowCeiling(scenes: seq<S2Scene>)
    ensures forall s :: s in SelectScenes(scenes) ==> s.cloudyPixelPercentage < 30.0
  {
    SelectionSplit(scenes);
    CandidatesBelowCeiling(scenes);
    forall s | s in SelectScenes(scenes) ensures s.cloudyPixelPercentage < 30.0 {
      assert s in multiset(SelectScenes(scenes));
    }
  }

  /** No candidate left out has a strictly lower cloudy pixel percentage than
      a selected one. */
  lemma SelectionKeepsLeastCloudy(scenes: seq<S2Scene>)
    ensures forall dropped: S2Scene, kept: S2Scene ::
      dropped in multiset(Candidates(scenes)) - multiset(SelectScenes(scenes)) && kept in SelectScenes(scenes) ==>
        kept.cloudyPixelPercentage <= dropped.cloudyPixelPercentage
  {
    SelectionSplit(scenes);
    SortedPrefixLeast(SortByCloud(Candidates(scenes)), |SelectScenes(scenes)|);
  }

  /** The selection holds at most 10 scenes (all candidates when there are at
      most 10), in non-decreasing cloudy pixel percentage, each below 30; it is
      a sub-multiset of the candidates, and no candidate left out has a
      strictly lower percentage than one kept. */
  lemma SelectScenesProperties(scenes: seq<S2Scene>)
    ensures |SelectScenes(scenes)| == if |Candidates(scenes)| <= 10 then |Candidates(scenes)| else 10
    ensures SortedByCloud(SelectScenes(scenes))
    ensures multiset(SelectScenes(scenes)) <= multiset(Candidates(scenes))
    ensures forall s :: s in SelectScenes(scenes) ==> s.cloudyPixelPercentage < 30.0
    ensures forall dropped: S2Scene, kept: S2Scene ::
      dropped in multiset(Candidates(scenes)) - multiset(SelectScenes(scenes)) && kept in SelectScenes(scenes) ==>
        kept.cloudyPixelPercentage <= dropped.cloudyPixelPercentage
  {
    SelectionSplit(scenes);
    SelectionSortedAndBounded(scenes);
    SelectionBelowCeiling(scenes);
    SelectionKeepsLeastCloudy(scenes);
  }

  /** `getNDVI`: the NDVI image of a window. `archive` scenes are the window's
      scenes within the bounds; `composite` stands for `median()` followed by
      `normalizedDifference(["B8", "B4"])`, which the model takes as given. */
  function GetNdvi(scenes: seq<S2Scene>, composite: seq<S2Scene> -> Raster<real>): Raster<real>
  {
    composite(SelectScenes(scenes))
  }

  /** `years.forEach(...)` filling `ndviImages[year]`: afterwards exactly the
      five years are keys, each bound to the NDVI image of its window, from
      May 1 up to, not including, Aug 31. */
  method NdviImages(archive: int -> seq<S2Scene>, composite: seq<S2Scene> -> Raster<real>)
    returns (ndviImages: map<int, Raster<real>>)
    ensures ndviImages.Keys == {2020, 2021, 2022, 2023, 2024}
    ensures forall year :: year in ndviImages ==> ndviImages[year] == GetNdvi(archive(year), composite)
  {
    var years := Years();
    ndviImages := map[];
    var i := 0;
    while i < |years|
      invariant 0 <= i <= |years|
      invariant forall y :: y in ndviImages <==> y in years[..i]
      invariant forall year :: year in ndviImages ==> ndviImages[year] == GetNdvi(archive(year), composite)
    {
      var year := years[i];
      assert years[..i + 1] == years[..i] + [year];
      ndviImages := ndviImages[year := GetNdvi(archive(year), composite)];
      i := i + 1;
    }
    assert years[..i] == [2020, 2021, 2022, 2023, 2024];
    assert ndviImages.Keys == {2020, 2021, 2022, 2023, 2024} by {
      forall y ensures y in ndviImages.Keys <==> y in {2020, 2021, 2022, 2023, 2024} {
        assert y in ndviImages <==> y in years[..i];
      }
    }
  }


  /** The display thresholds, in increasing order. */
  const Thresholds: seq<real> := [0.3, 0.4, 0.5, 0.6, 0.7, 0.8]

  /** `ndviImage.updateMask(ndviImage.gte(thresh))`: a cell stays visible
      exactly when it holds an NDVI value of at least the threshold; visible
      cells keep their value. */
  function VisibleAbove(ndvi: Raster<real>, threshold: real): (filtered: Raster<real>)
    ensures |filtered| == |ndvi|
    ensures forall i :: 0 <= i < |ndvi| ==>
      (filtered[i].Some? <==> IsGreen(ndvi, i, threshold)) &&
      (filtered[i].Some? ==> filtered[i] == ndvi[i])
  {
    seq(|ndvi|, i requires 0 <= i < |ndvi| =>
      if ndvi[i].Some? && ndvi[i].value >= threshold then ndvi[i] else None)
  }

  /** One layer handed to the map: its year, its threshold and its image. */
  datatype Layer = Layer(year: int, threshold: real, image: Raster<real>)

  /** The layers of one year, one per threshold, in the order of `Thresholds`. */
  function YearLayers(year: int, ndvi: Raster<real>): (layers: seq<Layer>)
    ensures |layers| == |Thresholds|
    ensures forall k :: 0 <= k < |Thresholds| ==>
      layers[k].year == year && layers[k].threshold == Thresholds[k] && |layers[k].image| == |ndvi| &&
      forall i :: 0 <= i < |ndvi| ==>
        (layers[k].image[i].Some? <==> IsGreen(ndvi, i, Thresholds[k])) &&
        (layers[k].image[i].Some? ==> layers[k].image[i] == ndvi[i])
  {
    seq(|Thresholds|, k requires 0 <= k < |Thresholds| =>
      Layer(year, Thresholds[k], VisibleAbove(ndvi, Thresholds[k])))
  }

  /** The layers of all the given years, year after year. */
  function AllLayers(years: seq<int>, ndviImages: map<int, Raster<real>>): seq<Layer>
    requires forall year :: year in years ==> year in ndviImages
  {
    if years == [] then []
    else
      var last := years[|years| - 1];
      AllLayers(years[..|years| - 1], ndviImages) + YearLayers(last, ndviImages[last])
  }

  /** The nested `years.forEach` / `thresholds.forEach` loop that builds one
      masked layer per year and threshold. */
  method ThresholdLayers(ndviImages: map<int, Raster<real>>) returns (layers: seq<Layer>)
    requires forall year :: year in Years() ==> year in ndviImages
    ensures layers == AllLayers(Years(), ndviImages)
  {
    var years := Years();
    layers := [];
    var i := 0;
    while i < |years|
      invariant 0 <= i <= |years|
      invariant layers == AllLayers(years[..i], ndviImages)
    {
      var year := years[i];
      var ndviImage := ndviImages[year];
      ghost var before := AllLayers(years[..i], ndviImages);
      ghost var yearLayers := YearLayers(year, ndviImage);
      var j := 0;
      while j < |Thresholds|
        invariant 0 <= j <= |Thresholds|
        invariant layers == before + yearLayers[..j]
      {
        var thresh := Thresholds[j];
        var filtered := VisibleAbove(ndviImage, thresh);
        assert yearLayers[..j + 1] == yearLayers[..j] + [Layer(year, thresh, filtered)];
        layers := layers + [Layer(year, thresh, filtered)];
        j := j + 1;
      }
      assert years[..i + 1][..i] == years[..i];
      assert yearLayers[..j] == yearLayers;
      assert AllLayers(years[..i + 1], ndviImages) == before + yearLayers;
      i := i + 1;
    }
    assert years[..i] == years;
  }

  /** Layer 6 j + k of the loop's output is year 2020 + j at the k-th
      threshold: it shows exactly the cells of that year's image whose NDVI
      reaches the threshold, with their values. */
  lemma ThresholdLayerAt(ndviImages: map<int, Raster<real>>, j: nat, k: nat)
    requires forall year :: year in Years() ==> year in ndviImages
    requires j < 5 && k < |Thresholds|
    ensures var layers := AllLayers(Years(), ndviImages);
      var ndvi := ndviImages[2020 + j];
      |layers| == 5 * |Thresholds| &&
      j * |Thresholds| + k < |layers| &&
      layers[j * |Thresholds| + k].year == 2020 + j &&
      layers[j * |Thresholds| + k].threshold == Thresholds[k] &&
      |layers[j * |Thresholds| + k].image| == |ndvi| &&
      forall i :: 0 <= i < |ndvi| ==>
        (layers[j * |Thresholds| + k].image[i].Some? <==> IsGreen(ndvi, i, Thresholds[k])) &&
        (layers[j * |Thresholds| + k].image[i].Some? ==> layers[j * |Thresholds| + k].image[i] == ndvi[i])
  {
    var years := Years();
    var blocks := seq(|years|, y requires 0 <= y < |years| => YearLayers(years[y], ndviImages[years[y]]));
    AllLayersIsFlatten(years, ndviImages);
    assert AllLayers(years, ndviImages) == Flatten(blocks);
    assert years[j] == 2020 + j;
    assert forall y :: 0 <= y < |blocks| ==> |blocks[y]| == |Thresholds|;
    FlattenUniform(blocks, |Thresholds|, j, k);
  }

  /** The layers of all years are the per-year layer lists merged in order. */
  lemma {:induction false} AllLayersIsFlatten(years: seq<int>, ndviImages: map<int, Raster<real>>)
    requires forall year :: year in years ==> year in ndviImages
    ensures AllLayers(years, ndviImages)
      == Flatten(seq(|years|, y requires 0 <= y < |years| => YearLayers(years[y], ndviImages[years[y]])))
  {
    var blocks := seq(|years|, y requires 0 <= y < |years| => YearLayers(years[y], ndviImages[years[y]]));
    if years != [] {
      var init := years[..|years| - 1];
      AllLayersIsFlatten(init, ndviImages);
      assert blocks[..|blocks| - 1]
        == seq(|init|, y requires 0 <= y < |init| => YearLayers(init[y], ndviImages[init[y]]));
    }
  }

  /** Within one year, the layer of a higher threshold shows a subset of the
      cells shown by the layer of a lower one. */
  lemma LayersNested(year: int, ndvi: Raster<real>, low: nat, high: nat, i: nat)
    requires low <= high < |Thresholds| && i < |ndvi|
    ensures var layers := YearLayers(year, ndvi);
      layers[high].image[i].Some? ==> layers[low].image[i].Some?
  {
  }

  /** Number of the region's cells that hold data. */
  function ValidCount(image: Raster<real>, cells: seq<nat>): (n: nat)
    ensures n <= |cells|
  {
    if cells == [] then 0
    else
      var c := cells[|cells| - 1];
      ValidCount(image, cells[..|cells| - 1]) + (if c < |image| && image[c].Some? then 1 else 0)
  }

  /** The cells a threshold layer shows in a region are exactly the region's
      green cells at that threshold. */
  lemma {:induction false} VisibleCountIsGreenCount(ndvi: Raster<real>, cells: seq<nat>, threshold: real)
    ensures ValidCount(VisibleAbove(ndvi, threshold), cells) == GreenCount(ndvi, cells, threshold)
  {
    if cells != [] {
      VisibleCountIsGreenCount(ndvi, cells[..|cells| - 1], threshold);
    }
  }

  /** One sample after `set("year")`, `set("district", SGG_NM)` and
      `select(["NDVI", "year", "district"])`. */
  datatype NdviSample = NdviSample(ndvi: real, year: int, district: string)

  /** `value` is the image's value at one of the cells. */
  predicate SampledFrom(image: Raster<real>, cells: seq<nat>, value: real)
  {
    exists c :: c in cells && c < |image| && image[c] == Some(value)
  }

  /** Number of the region's cells whose sample is exactly `value`. */
  function CellsHolding(image: Raster<real>, cells: seq<nat>, value: real): (n: nat)
    ensures n <= ValidCount(image, cells)
  {
    if cells == [] then 0
    else
      var c := cells[|cells| - 1];
      CellsHolding(image, cells[..|cells| - 1], value) + (if c < |image| && image[c] == Some(value) then 1 else 0)
  }

  /** Number of samples whose NDVI is exactly `value`. */
  function SamplesOfValue(samples: seq<NdviSample>, value: real): nat
  {
    if samples == [] then 0
    else
      SamplesOfValue(samples[..|samples| - 1], value) + (if samples[|samples| - 1].ndvi == value then 1 else 0)
  }

  /** `sampleRegions` over one region: one sample per cell of the region that
      holds data (masked cells yield none), tagged with the year and the
      district name; every value occurs among the samples exactly as often as
      the region's cells hold it. */
  function SampleCells(image: Raster<real>, cells: seq<nat>, year: int, district: string): (samples: seq<NdviSample>)
    ensures |samples| == ValidCount(image, cells)
    ensures forall s :: s in samples ==> s.year == year && s.district == district
    ensures forall s :: s in samples ==> SampledFrom(image, cells, s.ndvi)
    ensures forall value :: SamplesOfValue(samples, value) == CellsHolding(image, cells, value)
  {
    if cells == [] then []
    else
      var init := cells[..|cells| - 1];
      var c := cells[|cells| - 1];
      var earlier := SampleCells(image, init, year, district);
      assert forall s :: s in earlier ==> SampledFrom(image, cells, s.ndvi) by {
        forall s | s in earlier ensures SampledFrom(image, cells, s.ndvi) {
          var c' :| c' in init && c' < |image| && image[c'] == Some(s.ndvi);
          assert c' in cells;
        }
      }
      var added := if c < |image| && image[c].Some? then [NdviSample(image[c].value, year, district)] else [];
      assert forall value :: SamplesOfValue(earlier + added, value) == CellsHolding(image, cells, value) by {
        forall value ensures SamplesOfValue(earlier + added, value) == CellsHolding(image, cells, value) {
          if added == [] {
            assert earlier + added == earlier;
          } else {
            assert (earlier + added)[..|earlier|] == earlier;
          }
        }
      }
      earlier + added
  }

  /** The per-region sample lists of `sampleNDVIByDistrict`, region by region. */
  function DistrictSamples(year: int, ndviImage: Raster<real>, districts: seq<District>): (blocks: seq<seq<NdviSample>>)
    ensures |blocks| == |districts|
  {
    seq(|districts|, i requires 0 <= i < |districts| =>
      SampleCells(ndviImage, districts[i].cells, year, districts[i].sggNm))
  }

  /** `sampleNDVIByDistrict(year, ndviImage)`: the samples of all regions. */
  function SampleNdviByDistrict(year: int, ndviImage: Raster<real>, districts: seq<District>): seq<NdviSample>
  {
    Flatten(DistrictSamples(year, ndviImage, districts))
  }

  /** Every sample of a year carries that year and the SGG_NM of one of the
      districts, and its NDVI is the image value at a cell of that district. */
  lemma SamplesTagged(year: int, ndviImage: Raster<real>, districts: seq<District>, s: NdviSample)
    requires s in SampleNdviByDistrict(year, ndviImage, districts)
    ensures s.year == year
    ensures exists i :: 0 <= i < |districts| && s.district == districts[i].sggNm && SampledFrom(ndviImage, districts[i].cells, s.ndvi)
  {
    var blocks := DistrictSamples(year, ndviImage, districts);
    FlattenMember(blocks, s);
    var i :| 0 <= i < |blocks| && s in blocks[i];
    assert s in SampleCells(ndviImage, districts[i].cells, year, districts[i].sggNm);
  }

  /** `years.map(...)` then `flatten()`: the samples of every year, year after year. */
  function MergedSamples(years: seq<int>, ndviImages: map<int, Raster<real>>, districts: seq<District>): seq<NdviSample>
    requires forall year :: year in years ==> year in ndviImages
  {
    Flatten(seq(|years|, j requires 0 <= j < |years| => SampleNdviByDistrict(years[j], ndviImages[years[j]], districts)))
  }

  /** Every merged sample carries one of the loop's years. */
  lemma MergedSamplesYears(years: seq<int>, ndviImages: map<int, Raster<real>>, districts: seq<District>, s: NdviSample)
    requires forall year :: year in years ==> year in ndviImages
    requires s in MergedSamples(years, ndviImages, districts)
    ensures s.year in years
  {
    var blocks := seq(|years|, j requires 0 <= j < |years| => SampleNdviByDistrict(years[j], ndviImages[years[j]], districts));
    assert MergedSamples(years, ndviImages, districts) == Flatten(blocks);
    FlattenMember(blocks, s);
    var j :| 0 <= j < |blocks| && s in blocks[j];
    SamplesTagged(years[j], ndviImages[years[j]], districts, s);
  }
}
