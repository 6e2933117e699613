/** The rasters at one pixel. An input class image is a function from band name to the
    pixel's value in that band (0 = not in the class); the images come in taxonomy order,
    which is also the order of the assets' `img_map`. `where(test, v)` replaces the pixel by
    `v` where `test` is non-zero, and `And` is 1 where both operands are non-zero. */
module Rasters {
  import opened Wrappers
  import opened Decimal
  import opened Bands
  import opened Partitions
  import opened TransitionCodes

  /** One class image at one pixel: its value in each band. */
  type Image = string -> int

  /** `a.And(b)`. */
  function And(a: int, b: int): (r: int)
    ensures r == 1 <==> a != 0 && b != 0
    ensures r == 0 <==> !(a != 0 && b != 0)
  {
    if a != 0 && b != 0 then 1 else 0
  }

  /** The last of the first `n` images that is set in `band`. */
  function LastSet(images: seq<Image>, band: string, n: nat): (r: Option<nat>)
    requires n <= |images|
    ensures r.None? <==> forall i :: 0 <= i < n ==> images[i](band) == 0
    ensures r.Some? ==> r.value < n && images[r.value](band) != 0
                        && forall i :: r.value < i < n ==> images[i](band) == 0
  {
    if n == 0 then None
    else if images[n - 1](band) != 0 then Some(n - 1)
    else LastSet(images, band, n - 1)
  }

  // ---- single-year area rasters ----

  /** The area raster's value: `i + 1` for the last image set in the band, else 0. */
  function AreaValue(images: seq<Image>, band: string): int
  {
    match LastSet(images, band, |images|)
    case Some(i) => i + 1
    case None => 0
  }

  /** `area_raster` (both versions): the band comes from the partition key, then the
      zero image is overwritten by `i + 1` wherever image `i` is set in that band. */
  method AreaRaster(images: seq<Image>, key: string) returns (r: Result<int>)
    ensures YearToBandName(StrYear(key)).Err? ==> r == Err(YearToBandName(StrYear(key)).error)
    ensures YearToBandName(StrYear(key)).Ok? ==> r == Ok(AreaValue(images, YearToBandName(StrYear(key)).value))
  {
    var name := YearToBandName(StrYear(key));
    if name.Err? {
      return Err(name.error);
    }
    var band := name.value;
    var out := 0;
    for i := 0 to |images|
      invariant out == match LastSet(images, band, i) case Some(k) => k + 1 case None => 0
    {
      assert LastSet(images, band, i + 1) == if images[i](band) != 0 then Some(i) else LastSet(images, band, i);
      if images[i](band) != 0 {
        out := i + 1;
      }
    }
    return Ok(out);
  }

  /** The value lies in 0..N; it is 0 exactly when no image is set; otherwise it is `i + 1`
      for the largest `i` whose image is set. */
  lemma AreaValueRange(images: seq<Image>, band: string)
    ensures 0 <= AreaValue(images, band) <= |images|
    ensures AreaValue(images, band) == 0 <==> forall i :: 0 <= i < |images| ==> images[i](band) == 0
    ensures var v := AreaValue(images, band);
            v > 0 ==> images[v - 1](band) != 0 && forall i :: v <= i < |images| ==> images[i](band) == 0
  {
  }

  // ---- the year-pair transition raster ----

  /** `start_year, end_year = key.split("_")` and the two band names. */
  function TransitionBands(key: string): (r: Result<(string, string)>)
    ensures r.Ok? ==> SplitTwo(key, '_').Ok?
  {
    match SplitTwo(key, '_')
    case Err(e) => Err(e)
    case Ok((s, e)) =>
      match YearToBandName(StrYear(s))
      case Err(err) => Err(err)
      case Ok(startBand) =>
        match YearToBandName(StrYear(e))
        case Err(err) => Err(err)
        case Ok(endBand) => Ok((startBand, endBand))
  }

  /** A year-pair key "Y1_Y2" selects bands b(Y1 - 1999) and b(Y2 - 1999). */
  lemma TransitionBandsOfKey(y1: int, y2: int)
    ensures TransitionBands(Show(y1) + "_" + Show(y2)) == Ok((BandOfYear(y1), BandOfYear(y2)))
  {
    ShowAvoids(y1, '_');
    ShowAvoids(y2, '_');
    SplitTwoJoin(Show(y1), Show(y2), '_');
    ParseShow(y1);
    ParseShow(y2);
  }

  /** The partition "Y_(Y+1)" compares band b(Y - 1999) with the next band. */
  lemma PartitionBands(k: nat)
    requires k < KeyCount
    ensures TransitionBands(YearPartitionKeys()[k]) == Ok((BandOfYear(FirstYear + k), BandOfYear(FirstYear + k + 1)))
  {
    TransitionBandsOfKey(FirstYear + k, FirstYear + k + 1);
  }

  /** Every pair of taxonomy labels has an entry in the inverse map. */
  predicate CoversPairs(labels: seq<string>, inv: map<LabelPair, int>)
  {
    forall i, j :: 0 <= i < |labels| && 0 <= j < |labels| ==> (labels[i], labels[j]) in inv
  }

  /** The transition raster's value: the code of (last start label set in the start band,
      last end label set in the end band), or 0 when either is missing. */
  function TransitionValue(labels: seq<string>, images: seq<Image>, inv: map<LabelPair, int>,
                           startBand: string, endBand: string): int
    requires |images| == |labels| && CoversPairs(labels, inv)
  {
    match (LastSet(images, startBand, |images|), LastSet(images, endBand, |images|))
    case (Some(i), Some(j)) => inv[(labels[i], labels[j])]
    case _ => 0
  }

  /** The value after the first `rows` start labels of the where-fold. */
  function ValueAfterRows(labels: seq<string>, images: seq<Image>, inv: map<LabelPair, int>,
                          startBand: string, endBand: string, rows: nat): int
    requires |images| == |labels| && rows <= |images|
    requires forall i, j :: 0 <= i < rows && 0 <= j < |labels| ==> (labels[i], labels[j]) in inv
  {
    match (LastSet(images, startBand, rows), LastSet(images, endBand, |images|))
    case (Some(i), Some(j)) => inv[(labels[i], labels[j])]
    case _ => 0
  }

  /** The value part-way through row `i` of the where-fold, after its first `cols` end labels. */
  function ValueInRow(labels: seq<string>, images: seq<Image>, inv: map<LabelPair, int>,
                      startBand: string, endBand: string, i: nat, cols: nat): int
    requires |images| == |labels| && i < |images| && cols <= |images|
    requires forall a, b :: 0 <= a < i && 0 <= b < |labels| ==> (labels[a], labels[b]) in inv
    requires forall b :: 0 <= b < cols ==> (labels[i], labels[b]) in inv
  {
    if images[i](startBand) != 0 && LastSet(images, endBand, cols).Some?
    then inv[(labels[i], labels[LastSet(images, endBand, cols).value])]
    else ValueAfterRows(labels, images, inv, startBand, endBand, i)
  }

  /** One more end label of row `i`: the pair's code replaces the value where both bands
      are set. */
  lemma CellDone(labels: seq<string>, images: seq<Image>, inv: map<LabelPair, int>,
                 startBand: string, endBand: string, i: nat, j: nat)
    requires |images| == |labels| && i < |images| && j < |images|
    requires forall a, b :: 0 <= a < i && 0 <= b < |labels| ==> (labels[a], labels[b]) in inv
    requires forall b :: 0 <= b <= j ==> (labels[i], labels[b]) in inv
    ensures ValueInRow(labels, images, inv, startBand, endBand, i, j + 1)
            == if And(images[i](startBand), images[j](endBand)) != 0 then inv[(labels[i], labels[j])]
               else ValueInRow(labels, images, inv, startBand, endBand, i, j)
  {
  }

  /** A finished row of the where-fold leaves the value after one more row. */
  lemma RowDone(labels: seq<string>, images: seq<Image>, inv: map<LabelPair, int>,
                startBand: string, endBand: string, i: nat)
    requires |images| == |labels| && i < |images|
    requires forall a, b :: 0 <= a <= i && 0 <= b < |labels| ==> (labels[a], labels[b]) in inv
    ensures ValueInRow(labels, images, inv, startBand, endBand, i, |labels|)
            == ValueAfterRows(labels, images, inv, startBand, endBand, i + 1)
  {
  }

  /** The nested where-fold of `transition_raster` over every (start, end) pair in
      `img_map` order, starting from the zero image; a pair missing from the inverse map is
      a KeyError. */
  method TransitionFold(labels: seq<string>, images: seq<Image>, inv: map<LabelPair, int>,
                        startBand: string, endBand: string) returns (r: Result<int>)
    requires |images| == |labels|
    ensures r.Ok? <==> CoversPairs(labels, inv)
    ensures r.Ok? ==> CoversPairs(labels, inv) && r.value == TransitionValue(labels, images, inv, startBand, endBand)
  {
    var n := |labels|;
    var masked := 0;
    var i := 0;
    while i < n
      invariant 0 <= i <= n
      invariant forall a, b :: 0 <= a < i && 0 <= b < n ==> (labels[a], labels[b]) in inv
      invariant masked == ValueAfterRows(labels, images, inv, startBand, endBand, i)
    {
      var row := FoldRow(labels, images, inv, startBand, endBand, i, masked);
      if row.Err? {
        return row;
      }
      masked := row.value;
      i := i + 1;
    }
    return Ok(masked);
  }

  /** The inner loop of the where-fold: start label `i` against every end label in turn. */
  method FoldRow(labels: seq<string>, images: seq<Image>, inv: map<LabelPair, int>,
                 startBand: string, endBand: string, i: nat, masked: int) returns (r: Result<int>)
    requires |images| == |labels| && i < |labels|
    requires forall a, b :: 0 <= a < i && 0 <= b < |labels| ==> (labels[a], labels[b]) in inv
    requires masked == ValueAfterRows(labels, images, inv, startBand, endBand, i)
    ensures r.Ok? <==> forall b :: 0 <= b < |labels| ==> (labels[i], labels[b]) in inv
    ensures r.Ok? ==> r.value == ValueAfterRows(labels, images, inv, startBand, endBand, i + 1)
  {
    var n := |labels|;
    var value := masked;
    var j := 0;
    while j < n
      invariant 0 <= j <= n
      invariant forall b :: 0 <= b < j ==> (labels[i], labels[b]) in inv
      invariant value == ValueInRow(labels, images, inv, startBand, endBand, i, j)
    {
      var pair := (labels[i], labels[j]);
      if pair !in inv {
        return Err(KeyError(pair.0 + "-" + pair.1));
      }
      CellDone(labels, images, inv, startBand, endBand, i, j);
      if And(images[i](startBand), images[j](endBand)) != 0 {
        value := inv[pair];
      }
      j := j + 1;
    }
    RowDone(labels, images, inv, startBand, endBand, i);
    return Ok(value);
  }

  /** `transition_raster`: the bands from the key, the inverse of the loaded label map,
      then the where-fold. */
  method TransitionRaster(labels: seq<string>, images: seq<Image>, loaded: seq<(string, LabelPair)>,
                          key: string) returns (r: Result<int>)
    requires |images| == |labels|
    ensures TransitionBands(key).Err? ==> r == Err(TransitionBands(key).error)
    ensures TransitionBands(key).Ok? && Inverse(loaded).Err? ==> r == Err(Inverse(loaded).error)
    ensures TransitionBands(key).Ok? && Inverse(loaded).Ok? ==>
              (r.Ok? <==> CoversPairs(labels, Inverse(loaded).value))
    ensures r.Ok? ==> TransitionBands(key).Ok? && Inverse(loaded).Ok? && CoversPairs(labels, Inverse(loaded).value)
                      && r.value == TransitionValue(labels, images, Inverse(loaded).value,
                                                    TransitionBands(key).value.0, TransitionBands(key).value.1)
  {
    var bands := TransitionBands(key);
    if bands.Err? {
      return Err(bands.error);
    }
    var inverse := Inverse(loaded);
    if inverse.Err? {
      return Err(inverse.error);
    }
    r := TransitionFold(labels, images, inverse.value, bands.value.0, bands.value.1);
  }

  /** With the label map this project writes, each pixel decodes to its transition: the
      value is the code of (last start name set, last end name set), and the loaded map
      sends that code's string back to the pair. */
  lemma TransitionValueDecodes(labels: seq<string>, images: seq<Image>, startBand: string, endBand: string)
    requires Distinct(labels) && |images| == |labels|
    ensures Inverse(Dump(Entries(labels))).Ok?
    ensures CoversPairs(labels, Inverse(Dump(Entries(labels))).value)
    ensures var v := TransitionValue(labels, images, Inverse(Dump(Entries(labels))).value, startBand, endBand);
            var m := Multiplier(|labels|);
            match (LastSet(images, startBand, |images|), LastSet(images, endBand, |images|))
            case (Some(i), Some(j)) =>
              v == Encode(i, j, m) && Lookup(Dump(Entries(labels)), Show(v)) == Some((labels[i], labels[j]))
            case _ => v == 0
  {
    EntriesValuesDistinct(labels);
    InverseOfDump(Entries(labels));
    forall i, j | 0 <= i < |labels| && 0 <= j < |labels|
      ensures (labels[i], labels[j]) in Inverse(Dump(Entries(labels))).value
    {
      InverseGivesCode(labels, i, j);
    }
    match (LastSet(images, startBand, |images|), LastSet(images, endBand, |images|))
    case (Some(i), Some(j)) =>
      InverseGivesCode(labels, i, j);
      DecodeCode(labels, i, j);
    case _ =>
  }

  /** The background value 0 is itself the code of (first label, first label), so a pixel
      where no transition was written decodes as that transition. */
  lemma BackgroundDecodesAsFirstPair(labels: seq<string>, images: seq<Image>, startBand: string, endBand: string)
    requires Distinct(labels) && |images| == |labels| && |labels| > 0
    requires LastSet(images, startBand, |images|).None? || LastSet(images, endBand, |images|).None?
    ensures Inverse(Dump(Entries(labels))).Ok?
    ensures CoversPairs(labels, Inverse(Dump(Entries(labels))).value)
    ensures var v := TransitionValue(labels, images, Inverse(Dump(Entries(labels))).value, startBand, endBand);
            v == 0 && Lookup(Dump(Entries(labels)), Show(v)) == Some((labels[0], labels[0]))
  {
    TransitionValueDecodes(labels, images, startBand, endBand);
    CodeZero(labels);
    assert Show(0) == "0";
  }

  // ---- the label-pair rasters of the large regions ----

  /** `img_map[label]` for the images in taxonomy order; an unknown label is a KeyError. */
  function ImageOf(labels: seq<string>, images: seq<Image>, name: string): (r: Result<Image>)
    requires |images| == |labels|
    ensures r.Ok? <==> name in labels
  {
    var items := seq(|labels|, k requires 0 <= k < |labels| => (labels[k], images[k]));
    match Lookup(items, name)
    case Some(img) => Ok(img)
    case None =>
      assert forall k :: 0 <= k < |labels| ==> labels[k] != name by {
        forall k | 0 <= k < |labels| ensures labels[k] != name { assert items[k].0 == labels[k]; }
      }
      Err(KeyError(name))
  }

  lemma ImageOfLabel(labels: seq<string>, images: seq<Image>, i: nat)
    requires Distinct(labels) && |images| == |labels| && i < |labels|
    ensures ImageOf(labels, images, labels[i]) == Ok(images[i])
  {
    var items := seq(|labels|, k requires 0 <= k < |labels| => (labels[k], images[k]));
    assert items[i].0 == labels[i];
    var q := LookupWitness(items, labels[i]);
    DistinctAt(labels, q, i);
  }

  /** `raster_split`: the key "S-E|Y1_Y2" names a label pair and a year pair; the pixel is
      `And` of the start label's image in the start band and the end label's image in the
      end band. */
  function RasterSplit(labels: seq<string>, images: seq<Image>, key: string): Result<int>
    requires |images| == |labels|
  {
    match SplitTwo(key, '|')
    case Err(e) => Err(e)
    case Ok((labelPair, yearPair)) =>
      match TransitionBands(yearPair)
      case Err(e) => Err(e)
      case Ok((startBand, endBand)) =>
        match SplitTwo(labelPair, '-')
        case Err(e) => Err(e)
        case Ok((startLabel, endLabel)) =>
          match ImageOf(labels, images, startLabel)
          case Err(e) => Err(e)
          case Ok(a) =>
            match ImageOf(labels, images, endLabel)
            case Err(e) => Err(e)
            case Ok(b) => Ok(And(a(startBand), b(endBand)))
  }

  /** A key built from two taxonomy labels (holding neither '-' nor '|') and two years gives
      1 exactly where both labels' masks are set in their years' bands. */
  lemma RasterSplitOfKey(labels: seq<string>, images: seq<Image>, i: nat, j: nat, y1: int, y2: int)
    requires Distinct(labels) && |images| == |labels| && i < |labels| && j < |labels|
    requires '-' !in labels[i] && '-' !in labels[j] && '|' !in labels[i] && '|' !in labels[j]
    ensures var key := labels[i] + "-" + labels[j] + "|" + Show(y1) + "_" + Show(y2);
            var r := RasterSplit(labels, images, key);
            r.Ok? && (r.value == 1 <==> images[i](BandOfYear(y1)) != 0 && images[j](BandOfYear(y2)) != 0)
  {
    SplitKeyParts(labels[i], labels[j], y1, y2);
    TransitionBandsOfKey(y1, y2);
    SplitTwoJoin(labels[i], labels[j], '-');
    ImageOfLabel(labels, images, i);
    ImageOfLabel(labels, images, j);
  }

  /** The key "S-E|Y1_Y2" splits on '|' into its label pair and its year pair. */
  lemma SplitKeyParts(s: string, e: string, y1: int, y2: int)
    requires '|' !in s && '|' !in e
    ensures SplitTwo(s + "-" + e + "|" + Show(y1) + "_" + Show(y2), '|')
            == Ok((s + "-" + e, Show(y1) + "_" + Show(y2)))
  {
    var labelPair := s + "-" + e;
    var yearPair := Show(y1) + "_" + Show(y2);
    assert s + "-" + e + "|" + Show(y1) + "_" + Show(y2) == labelPair + ['|'] + yearPair;
    assert '|' !in labelPair;
    assert '|' !in yearPair by {
      ShowAvoids(y1, '|');
      ShowAvoids(y2, '|');
    }
    SplitTwoJoin(labelPair, yearPair, '|');
  }

  /** The large regions' area raster: the key "label|year" selects that label's image in
      the year's band. */
  function LabelYearRaster(labels: seq<string>, images: seq<Image>, key: string): Result<int>
    requires |images| == |labels|
  {
    match SplitTwo(key, '|')
    case Err(e) => Err(e)
    case Ok((name, year)) =>
      match YearToBandName(StrYear(year))
      case Err(e) => Err(e)
      case Ok(band) =>
        match ImageOf(labels, images, name)
        case Err(e) => Err(e)
        case Ok(img) => Ok(img(band))
  }

  lemma LabelYearRasterOfKey(labels: seq<string>, images: seq<Image>, i: nat, year: int)
    requires Distinct(labels) && |images| == |labels| && i < |labels| && '|' !in labels[i]
    ensures LabelYearRaster(labels, images, labels[i] + "|" + Show(year)) == Ok(images[i](BandOfYear(year)))
  {
    ShowAvoids(year, '|');
    SplitTwoJoin(labels[i], Show(year), '|');
    ParseShow(year);
    ImageOfLabel(labels, images, i);
  }

  // ---- the asset inputs ----

  /** The `ins` dict of the raster assets: one class-mask input per label, after which the
      "grasslands_img" input is pointed at the merged grassland mask. */
  function RasterInputs(prefix: seq<string>, labels: seq<string>): seq<(string, seq<string>)>
  {
    seq(|labels|, k requires 0 <= k < |labels| => (labels[k] + "_img", prefix + ["class_mask", labels[k]]))
      + [("grasslands_img", prefix + ["class_mask", "grasslands_merged"])]
  }

  /** The grasslands input reads the merged grassland mask; every other label reads its
      own class mask. */
  lemma RasterInputKeys(prefix: seq<string>, labels: seq<string>, name: string)
    requires name in labels
    ensures Lookup(RasterInputs(prefix, labels), "grasslands_img") == Some(prefix + ["class_mask", "grasslands_merged"])
    ensures name + "_img" != "grasslands_img" ==>
              Lookup(RasterInputs(prefix, labels), name + "_img") == Some(prefix + ["class_mask", name])
  {
    var items := RasterInputs(prefix, labels);
    var front := items[..|labels|];
    if name + "_img" != "grasslands_img" {
      assert Lookup(items, name + "_img") == Lookup(front, name + "_img");
      var k :| 0 <= k < |labels| && labels[k] == name;
      assert front[k].0 == name + "_img";
      var q := LookupWitness(front, name + "_img");
      assert labels[q] + "_img" == name + "_img";
      assert labels[q] == (labels[q] + "_img")[..|labels[q]|];
      assert name == (name + "_img")[..|name|];
    }
  }
}
