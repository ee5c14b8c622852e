/** The part of the pipeline the Landsat 8 and MODIS scripts share, line for
    line: the district collection with its English names, the threshold
    classification `ndvi.gte(threshold)`, the zonal `reduceRegions` sum, the
    per-feature row callback, the area conversion, and the year list whose
    per-year tables are merged one after another. */
module GreenArea {
  import opened Wrappers

  /** One band of an image: a sample per cell, `None` where the cell is masked. */
  type Raster<T> = seq<Option<T>>

  /** A feature of the district boundary collection. `cells` are the indices of
      the raster cells that the zonal reducer assigns to this district (the
      pixel-in-polygon decision of the engine is an input, not modelled). The
      indices are meant to be distinct, as a zonal sum over a polygon counts a
      pixel once; the counts below count a repeated index as often as it is
      listed. */
  datatype District = District(admSectC: string, sggNm: string, cells: seq<nat>)

  /** A district after `feature.set("ENG_NAME", ...)`. */
  datatype LabelledDistrict = LabelledDistrict(district: District, engName: string)

  /** One output row: the columns `code`, `name_eng`, `area_m2`, `year`. */
  datatype AreaRow = AreaRow(code: string, nameEng: string, areaM2: int, year: int)

  /** Administrative code -> English district name, for the 25 districts of Seoul. */
  const CodeToEnglishName: map<string, string> := map[
    "11110" := "Jongno-gu",
    "11140" := "Jung-gu",
    "11170" := "Yongsan-gu",
    "11200" := "Seongdong-gu",
    "11215" := "Gwangjin-gu",
    "11230" := "Dongdaemun-gu",
    "11260" := "Jungnang-gu",
    "11290" := "Seongbuk-gu",
    "11305" := "Gangbuk-gu",
    "11320" := "Dobong-gu",
    "11350" := "Nowon-gu",
    "11380" := "Eunpyeong-gu",
    "11410" := "Seodaemun-gu",
    "11440" := "Mapo-gu",
    "11470" := "Yangcheon-gu",
    "11500" := "Gangseo-gu",
    "11530" := "Guro-gu",
    "11545" := "Geumcheon-gu",
    "11560" := "Yeongdeungpo-gu",
    "11590" := "Dongjak-gu",
    "11620" := "Gwanak-gu",
    "11650" := "Seocho-gu",
    "11680" := "Gangnam-gu",
    "11710" := "Songpa-gu",
    "11740" := "Gangdong-gu"
  ]

  /** The dictionary lookup with its default, `get(admCode, "Unknown")`. */
  function EnglishName(admCode: string): string
  {
    if admCode in CodeToEnglishName then CodeToEnglishName[admCode] else "Unknown"
  }

  /** An unmapped code gets "Unknown", and no mapped code does. */
  lemma UnknownIffUnmapped(admCode: string)
    ensures EnglishName(admCode) == "Unknown" <==> admCode !in CodeToEnglishName
    ensures admCode in CodeToEnglishName ==> EnglishName(admCode) == CodeToEnglishName[admCode]
  {
  }

  /** `korea.map(...)`: every district labelled with its English name. */
  function WithEnglishNames(districts: seq<District>): (labelled: seq<LabelledDistrict>)
    ensures |labelled| == |districts|
    ensures forall i :: 0 <= i < |districts| ==>
      labelled[i].district == districts[i] && labelled[i].engName == EnglishName(districts[i].admSectC)
  {
    seq(|districts|, i requires 0 <= i < |districts| =>
      LabelledDistrict(districts[i], EnglishName(districts[i].admSectC)))
  }

  /** `ndvi.gte(threshold)`: 1 where the sample reaches the threshold, 0 where
      it is below, masked where the sample is masked. */
  function Classify(index: Raster<real>, threshold: real): (binary: Raster<int>)
    ensures |binary| == |index|
    ensures forall i :: 0 <= i < |index| ==>
      (binary[i] == Some(1) <==> index[i].Some? && index[i].value >= threshold) &&
      (binary[i] == None <==> index[i] == None) &&
      (binary[i] == Some(1) || binary[i] == Some(0) || binary[i] == None)
  {
    seq(|index|, i requires 0 <= i < |index| =>
      match index[i]
      case None => None
      case Some(v) => Some(if v >= threshold then 1 else 0))
  }

  /** Cell c holds data whose value reaches the threshold (a cell outside the
      image footprint holds no data). */
  predicate IsGreen(index: Raster<real>, c: nat, threshold: real)
  {
    c < |index| && index[c].Some? && index[c].value >= threshold
  }

  /** Reference count: how many of the region's cells are green. */
  function GreenCount(index: Raster<real>, cells: seq<nat>, threshold: real): (n: nat)
    ensures n <= |cells|
  {
    if cells == [] then 0
    else
      GreenCount(index, cells[..|cells| - 1], threshold)
      + (if IsGreen(index, cells[|cells| - 1], threshold) then 1 else 0)
  }

  /** `reduceRegions` with `Reducer.sum()`: the sum of the unmasked samples of
      the region's cells. */
  function ZonalSum(band: Raster<int>, cells: seq<nat>): int
  {
    if cells == [] then 0
    else
      var c := cells[|cells| - 1];
      ZonalSum(band, cells[..|cells| - 1])
      + (if c < |band| && band[c].Some? then band[c].value else 0)
  }

  /** Summing the classified band counts exactly the green cells: masked
      cells contribute nothing, and nothing is counted twice. */
  lemma {:induction false} ZonalSumOfClassified(index: Raster<real>, cells: seq<nat>, threshold: real)
    ensures ZonalSum(Classify(index, threshold), cells) == GreenCount(index, cells, threshold)
  {
    if cells != [] {
      ZonalSumOfClassified(index, cells[..|cells| - 1], threshold);
    }
  }

  /** Raising the threshold never increases the green count. */
  lemma {:induction false} GreenCountAntitone(index: Raster<real>, cells: seq<nat>, low: real, high: real)
    requires low <= high
    ensures GreenCount(index, cells, high) <= GreenCount(index, cells, low)
  {
    if cells != [] {
      GreenCountAntitone(index, cells[..|cells| - 1], low, high);
    }
  }

  /** A region none of whose cells holds data (no usable observation there in
      the window, or cells outside the image) gives a zero count, whatever the
      threshold. */
  lemma {:induction false} GreenCountNoData(index: Raster<real>, cells: seq<nat>, threshold: real)
    requires forall c :: c in cells && c < |index| ==> index[c] == None
    ensures GreenCount(index, cells, threshold) == 0
  {
    if cells != [] {
      GreenCountNoData(index, cells[..|cells| - 1], threshold);
    }
  }

  /** A district of four 30 m cells with composite NDVI 0.7, 0.5, 0.65 and 0.9
      has three green cells at threshold 0.6, hence 2700 m^2. */
  lemma ThirtyMetreExample()
    ensures var index: Raster<real> := [Some(0.7), Some(0.5), Some(0.65), Some(0.9)];
      var binary := Classify(index, 0.6);
      ZonalSum(binary, [0, 1, 2, 3]) == 3 &&
      YearStats([LabelledDistrict(District("11110", "Jongno", [0, 1, 2, 3]), "Jongno-gu")], binary, 30, 2020)
        == [AreaRow("11110", "Jongno-gu", 2700, 2020)]
  {
    var index: Raster<real> := [Some(0.7), Some(0.5), Some(0.65), Some(0.9)];
    var cells: seq<nat> := [0, 1, 2, 3];
    ZonalSumOfClassified(index, cells, 0.6);
    assert IsGreen(index, 0, 0.6) && !IsGreen(index, 1, 0.6) && IsGreen(index, 2, 0.6) && IsGreen(index, 3, 0.6);
    assert GreenCount(index, [0], 0.6) == 1 by { assert [0][..0] == []; }
    assert GreenCount(index, [0, 1], 0.6) == 1 by { assert [0, 1][..1] == [0]; }
    assert GreenCount(index, [0, 1, 2], 0.6) == 2 by { assert [0, 1, 2][..2] == [0, 1]; }
    assert GreenCount(index, cells, 0.6) == 3 by { assert cells[..3] == [0, 1, 2]; }
  }

  /** The per-feature callback: `area_m2 = sum * pixelAreaSqM`, with the code,
      the English name and the loop year. */
  function ZonalRow(feature: LabelledDistrict, sum: int, pixelAreaSqM: int, year: int): AreaRow
  {
    AreaRow(feature.district.admSectC, feature.engName, sum * pixelAreaSqM, year)
  }

  /** One year's table: `reduceRegions` over every labelled district at the
      given pixel side, then the row callback with `pixelAreaSqM = side^2`. */
  function YearStats(regions: seq<LabelledDistrict>, binary: Raster<int>, pixelSide: nat, year: int): (rows: seq<AreaRow>)
    ensures |rows| == |regions|
  {
    seq(|regions|, i requires 0 <= i < |regions| =>
      ZonalRow(regions[i], ZonalSum(binary, regions[i].district.cells), pixelSide * pixelSide, year))
  }

  /** What a row of one year's table means: the district's code unchanged, its
      looked-up name, the green area (green cells times side^2, never negative)
      and the year. */
  lemma YearStatsRow(districts: seq<District>, index: Raster<real>, threshold: real, pixelSide: nat, year: int, i: nat)
    requires i < |districts|
    ensures var rows := YearStats(WithEnglishNames(districts), Classify(index, threshold), pixelSide, year);
      |rows| == |districts| &&
      rows[i].code == districts[i].admSectC &&
      rows[i].nameEng == EnglishName(districts[i].admSectC) &&
      rows[i].areaM2 == GreenCount(index, districts[i].cells, threshold) * (pixelSide * pixelSide) &&
      rows[i].areaM2 >= 0 &&
      rows[i].year == year
  {
    ZonalSumOfClassified(index, districts[i].cells, threshold);
  }

  /** `ee.List.sequence(first, last)`: the integers first .. last inclusive. */
  function YearSequence(first: int, last: int): (years: seq<int>)
    ensures |years| == if last >= first then last - first + 1 else 0
    ensures forall j :: 0 <= j < |years| ==> years[j] == first + j
    decreases last - first
  {
    if last < first then [] else YearSequence(first, last - 1) + [last]
  }

  /** `ee.List.sequence(2020, 2024)`. */
  function Years(): (years: seq<int>)
    ensures years == [2020, 2021, 2022, 2023, 2024]
  {
    YearSequence(2020, 2024)
  }

  /** The tables of several years merged in order (`merge` applied left to right). */
  function Flatten<T>(blocks: seq<seq<T>>): seq<T>
  {
    if blocks == [] then [] else Flatten(blocks[..|blocks| - 1]) + blocks[|blocks| - 1]
  }

  /** Later merges never alter what earlier ones produced. */
  lemma {:induction false} FlattenPrefix<T>(blocks: seq<seq<T>>, i: nat)
    requires i <= |blocks|
    ensures Flatten(blocks[..i]) <= Flatten(blocks)
    decreases |blocks|
  {
    if i < |blocks| {
      var init := blocks[..|blocks| - 1];
      assert blocks[..i] == init[..i];
      FlattenPrefix(init, i);
    } else {
      assert blocks[..i] == blocks;
    }
  }

  /** When every block has n rows, row k of block j sits at j * n + k. */
  lemma FlattenUniform<T>(blocks: seq<seq<T>>, n: nat, j: nat, k: nat)
    requires forall y :: 0 <= y < |blocks| ==> |blocks[y]| == n
    requires j < |blocks| && k < n
    ensures |Flatten(blocks)| == |blocks| * n
    ensures j * n + k < |Flatten(blocks)| && Flatten(blocks)[j * n + k] == blocks[j][k]
  {
    FlattenLength(blocks, n);
    var upTo := blocks[..j + 1];
    assert upTo[..j] == blocks[..j];
    FlattenLength(blocks[..j], n);
    FlattenPrefix(blocks, j + 1);
    assert Flatten(upTo) == Flatten(blocks[..j]) + blocks[j];
    assert j * n + k < j * n + n == (j + 1) * n;
  }

  lemma {:induction false} FlattenLength<T>(blocks: seq<seq<T>>, n: nat)
    requires forall y :: 0 <= y < |blocks| ==> |blocks[y]| == n
    ensures |Flatten(blocks)| == |blocks| * n
  {
    if blocks != [] {
      var init := blocks[..|blocks| - 1];
      FlattenLength(init, n);
      var m := |blocks|;
      assert |Flatten(blocks)| == |Flatten(init)| + |blocks[m - 1]|;
      assert m * n == (m - 1) * n + n;
    }
  }

  /** An element of merged blocks comes from one of the blocks, and every
      element of every block is in the merge. */
  lemma {:induction false} FlattenMember<T>(blocks: seq<seq<T>>, x: T)
    ensures x in Flatten(blocks) <==> exists j :: 0 <= j < |blocks| && x in blocks[j]
  {
    if blocks != [] {
      var m := |blocks|;
      var init := blocks[..m - 1];
      FlattenMember(init, x);
      if x in Flatten(blocks) {
        if x !in blocks[m - 1] {
          var j :| 0 <= j < |init| && x in init[j];
          assert x in blocks[j];
        }
      } else {
        forall j | 0 <= j < m ensures x !in blocks[j] {
          if j < m - 1 { assert init[j] == blocks[j]; }
        }
      }
    }
  }

  /** The year tables, one per year, in the order of `years`. `yearTable(y)`
      is the loop body's `yearStats` for year y: each script supplies its own
      (the Landsat and MODIS loop bodies differ only there). */
  function YearBlocks(years: seq<int>, yearTable: int -> seq<AreaRow>): (blocks: seq<seq<AreaRow>>)
    ensures |blocks| == |years|
  {
    seq(|years|, j requires 0 <= j < |years| => yearTable(years[j]))
  }

  /** The year loop both green-area scripts run: starting from an empty
      collection, each year's table is merged after those of the earlier
      years. */
  method AllYearsStats(yearTable: int -> seq<AreaRow>) returns (allYearsStats: seq<AreaRow>)
    ensures allYearsStats == Flatten(YearBlocks(Years(), yearTable))
  {
    var years := Years();
    allYearsStats := [];
    var i := 0;
    while i < |years|
      invariant 0 <= i <= |years|
      invariant allYearsStats == Flatten(YearBlocks(years[..i], yearTable))
    {
      var year := years[i];
      var yearStats := yearTable(year);
      assert YearBlocks(years[..i + 1], yearTable) == YearBlocks(years[..i], yearTable) + [yearStats];
      allYearsStats := allYearsStats + yearStats;
      i := i + 1;
    }
    assert years[..i] == years;
  }

  /** Merging a later year never alters the rows of the earlier years: the
      table after the first k years is a prefix of the final table. */
  lemma EarlierYearsKept(yearTable: int -> seq<AreaRow>, k: nat)
    requires k <= |Years()|
    ensures Flatten(YearBlocks(Years()[..k], yearTable)) <= Flatten(YearBlocks(Years(), yearTable))
  {
    var blocks := YearBlocks(Years(), yearTable);
    assert YearBlocks(Years()[..k], yearTable) == blocks[..k];
    FlattenPrefix(blocks, k);
  }
}
