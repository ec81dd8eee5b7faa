/** `is_compatible_rasters` and `compare_rasters`: the structural report of two rasters, with
    the per-band pixel statistics when the compatibility gate lets the pair through. */
module Compare {
  import opened Models
  import opened Pixels
  import opened BandDiff
  import opened BandProperties

  /** Why `calc_diff` cannot compare a pair the gate let through. `MissingBand`: the test
      raster has fewer bands than the base, so looking up the nodata value or reading band
      `bidx` of the test raster fails. `SmallerExtent`: the test raster has the bands but a
      smaller height or width than the base's windows read. */
  datatype CalcError = MissingBand | SmallerExtent

  /** `is_compatible_rasters` as the code has it: the pair passes when ANY of shape
      (height, width), band count, affine transform or CRS match. */
  predicate IsCompatibleRasters(base: Dataset, test: Dataset): (compatible: bool)
    ensures IsCompatibleAllMatch(base, test) ==> compatible
  {
    || (base.props.height, base.props.width) == (test.props.height, test.props.width)
    || base.props.bands == test.props.bands
    || base.props.transform == test.props.transform
    || base.props.crs == test.props.crs
  }

  /** The gate the docstring describes: shape, band count, transform and CRS all match. A
      pair it lets through can serve every read `calc_diff` makes. */
  predicate IsCompatibleAllMatch(base: Dataset, test: Dataset): (compatible: bool)
    ensures compatible && WellFormed(base) && WellFormed(test) ==> TestCoversBase(base, test)
  {
    && (base.props.height, base.props.width) == (test.props.height, test.props.width)
    && base.props.bands == test.props.bands
    && base.props.transform == test.props.transform
    && base.props.crs == test.props.crs
  }

  /** The gate as written rejects a pair only when all four properties differ. */
  lemma IncompatibleOnlyWhenAllDiffer(base: Dataset, test: Dataset)
    ensures !IsCompatibleRasters(base, test) <==>
              && (base.props.height != test.props.height || base.props.width != test.props.width)
              && base.props.bands != test.props.bands
              && base.props.transform != test.props.transform
              && base.props.crs != test.props.crs
  {
  }

  /** Both gates are symmetric: neither depends on which raster is the base. */
  lemma GatesSymmetric(base: Dataset, test: Dataset)
    ensures IsCompatibleRasters(base, test) <==> IsCompatibleRasters(test, base)
    ensures IsCompatibleAllMatch(base, test) <==> IsCompatibleAllMatch(test, base)
  {
  }

  /** The tolerances `compare_rasters` passes to `calc_diff`: exact comparison, missing equal
      to missing. */
  function ExactTolerance(): Tolerance {
    Tolerance(0.0, 0.0, true)
  }

  /** One (equal, base, test) record holds the two values and says whether they agree. */
  predicate Records<T(==)>(c: Comparison<T>, base: T, test: T) {
    c.base == base && c.test == test && (c.equal <==> base == test)
  }

  /** The structural part of the report: every record compares the base raster's property
      with the test raster's. */
  predicate Reports(d: RasterDiff, baseMd5: string, testMd5: string, base: RasterProps, test: RasterProps) {
    && Records(d.checksum, baseMd5, testMd5)
    && Records(d.bands, base.bands, test.bands)
    && Records(d.width, base.width, test.width)
    && Records(d.height, base.height, test.height)
    && Records(d.dtype, base.dtype, test.dtype)
    && Records(d.nodata, base.nodata, test.nodata)
    && Records(d.bbox, base.bbox, test.bbox)
    && Records(d.crs, base.crs, test.crs)
    && Records(d.transform, base.transform, test.transform)
    && Records(d.metadata, base.metadata, test.metadata)
    && Records(d.bandsMetadata, base.bandsMetadata, test.bandsMetadata)
    && Records(d.stats, base.stats, test.stats)
  }

  /** The `RasterDiff` `compare_rasters` builds from the two digests, the two property sets
      and the pixel statistics (if any). */
  function Report(baseMd5: string, testMd5: string, base: RasterProps, test: RasterProps,
                  pixelValues: Option<seq<PixelDiffStats>>): (d: RasterDiff)
    ensures Reports(d, baseMd5, testMd5, base, test)
    ensures d.pixelValues == pixelValues
  {
    RasterDiff(
      Compared(baseMd5, testMd5),
      Compared(base.bands, test.bands),
      Compared(base.width, test.width),
      Compared(base.height, test.height),
      Compared(base.dtype, test.dtype),
      Compared(base.nodata, test.nodata),
      Compared(base.bbox, test.bbox),
      Compared(base.crs, test.crs),
      Compared(base.transform, test.transform),
      Compared(base.metadata, test.metadata),
      Compared(base.bandsMetadata, test.bandsMetadata),
      Compared(base.stats, test.stats),
      pixelValues)
  }

  /** The per-band records `calc_diff` returns with the tolerances of `compare_rasters`. */
  predicate ExactBandStats(pixelValues: seq<PixelDiffStats>, base: Dataset, test: Dataset)
    requires TestCoversBase(base, test)
  {
    && |pixelValues| == base.props.bands
    && forall i :: 0 <= i < |pixelValues| ==> pixelValues[i] == BandStats(base, test, i + 1, ExactTolerance())
  }

  /** `compare_rasters` with a compatibility gate: the digests are those of the two files
      (hashing is not modelled). When the gate lets the pair through but the test raster
      cannot serve the base raster's reads, the comparison ends in an error: `MissingBand`
      when the test raster lacks one of the base's bands, `SmallerExtent` otherwise. */
  function CompareWith(gate: bool, baseMd5: string, testMd5: string, base: Dataset, test: Dataset)
    : (r: Result<RasterDiff, CalcError>)
    requires WellFormed(base) && WellFormed(test)
    ensures r.Failure? <==> gate && !TestCoversBase(base, test)
    ensures r.Failure? ==> (r.error == MissingBand <==> test.props.bands < base.props.bands)
    ensures r.Success? ==> Reports(r.value, baseMd5, testMd5, base.props, test.props)
    ensures r.Success? ==> (r.value.pixelValues.Some? <==> gate)
    ensures r.Success? && r.value.pixelValues.Some? ==>
              TestCoversBase(base, test) && ExactBandStats(r.value.pixelValues.value, base, test)
  {
    if !gate then
      Success(Report(baseMd5, testMd5, base.props, test.props, None))
    else if test.props.bands < base.props.bands then
      Failure(MissingBand)
    else if !TestCoversBase(base, test) then
      Failure(SmallerExtent)
    else
      Success(Report(baseMd5, testMd5, base.props, test.props,
                     Some(BandsStats(base, test, ExactTolerance(), base.props.bands))))
  }

  /** `compare_rasters` as written, gated by `is_compatible_rasters`. */
  function CompareRasters(baseMd5: string, testMd5: string, base: Dataset, test: Dataset)
    : (r: Result<RasterDiff, CalcError>)
    requires WellFormed(base) && WellFormed(test)
    ensures r.Failure? <==> IsCompatibleRasters(base, test) && !TestCoversBase(base, test)
    ensures r.Failure? ==> (r.error == MissingBand <==> test.props.bands < base.props.bands)
    ensures r.Success? ==> Reports(r.value, baseMd5, testMd5, base.props, test.props)
    ensures r.Success? ==> (r.value.pixelValues.Some? <==> IsCompatibleRasters(base, test))
    ensures r.Success? && r.value.pixelValues.Some? ==>
              TestCoversBase(base, test) && ExactBandStats(r.value.pixelValues.value, base, test)
  {
    CompareWith(IsCompatibleRasters(base, test), baseMd5, testMd5, base, test)
  }

  /** `compare_rasters` gated by the all-match check: it never fails, and it reports pixel
      statistics exactly for pairs of equal shape, band count, transform and CRS. */
  function CompareRastersAllMatch(baseMd5: string, testMd5: string, base: Dataset, test: Dataset)
    : (r: Result<RasterDiff, CalcError>)
    requires WellFormed(base) && WellFormed(test)
    ensures r.Success?
    ensures Reports(r.value, baseMd5, testMd5, base.props, test.props)
    ensures r.value.pixelValues.Some? <==> IsCompatibleAllMatch(base, test)
    ensures r.value.pixelValues.Some? ==>
              TestCoversBase(base, test) && ExactBandStats(r.value.pixelValues.value, base, test)
  {
    CompareWith(IsCompatibleAllMatch(base, test), baseMd5, testMd5, base, test)
  }

  /** Under `compare_rasters`' exact tolerances, a band reports no differing pixel exactly
      when every pixel of the band has the same masked value on both sides. */
  lemma ZeroDiffCountIffSamePixels(baseMd5: string, testMd5: string, base: Dataset, test: Dataset, bidx: nat)
    requires TestCoversBase(base, test) && IsCompatibleRasters(base, test)
    requires 1 <= bidx <= base.props.bands && BandTiled(base, bidx)
    ensures CompareRasters(baseMd5, testMd5, base, test).Success?
    ensures CompareRasters(baseMd5, testMd5, base, test).value.pixelValues.Some?
    ensures CompareRasters(baseMd5, testMd5, base, test).value.pixelValues.value[bidx - 1].diffCount == 0 <==>
              forall r: nat, c: nat | r < base.props.height && c < base.props.width :: SamePixel(base, test, bidx, r, c)
  {
    DiffCountZeroIff(base, test, bidx, ExactTolerance());
    forall r: nat, c: nat | r < base.props.height && c < base.props.width
      ensures CloseCell(base, test, bidx, ExactTolerance(), r, c) <==> SamePixel(base, test, bidx, r, c)
    {
      CellInPair(base, test, bidx, Cell(r, c));
      var p := PairAt(base, test, bidx);
      ExactCloseIsEqual(BaseAt(p, Cell(r, c)), TestAt(p, Cell(r, c)));
    }
  }

  /** A raster compared with itself: every record says equal, the pixel statistics are
      present, and every band has no differing pixel, a zero maximum and a zero mean square. */
  lemma SelfComparison(md5: string, ds: Dataset)
    requires WellFormed(ds)
    ensures CompareRasters(md5, md5, ds, ds).Success?
    ensures var d := CompareRasters(md5, md5, ds, ds).value;
            && d.checksum.equal && d.bands.equal && d.width.equal && d.height.equal && d.dtype.equal
            && d.nodata.equal && d.bbox.equal && d.crs.equal && d.transform.equal && d.metadata.equal
            && d.bandsMetadata.equal && d.stats.equal
            && d.pixelValues.Some? && |d.pixelValues.value| == ds.props.bands
            && forall i :: 0 <= i < |d.pixelValues.value| ==>
                 var s := d.pixelValues.value[i];
                 s.diffCount == 0 && s.diffPercent == 0.0 && s.maxDiff == 0.0 && s.meanSquaredDiff == 0.0
  {
    var d := CompareRasters(md5, md5, ds, ds).value;
    forall i | 0 <= i < |d.pixelValues.value|
      ensures var s := d.pixelValues.value[i];
              s.diffCount == 0 && s.diffPercent == 0.0 && s.maxDiff == 0.0 && s.meanSquaredDiff == 0.0
    {
      SelfComparisonIsZero(ds, i + 1, 0.0, 0.0);
    }
  }

  /** A base raster without bands makes `calc_diff` read nothing: whatever the test raster,
      the comparison succeeds, and when the gate passes the pixel statistics are empty. */
  lemma NoBandsNeverFail(baseMd5: string, testMd5: string, base: Dataset, test: Dataset)
    requires WellFormed(base) && WellFormed(test) && base.props.bands == 0
    ensures CompareRasters(baseMd5, testMd5, base, test).Success?
    ensures var d := CompareRasters(baseMd5, testMd5, base, test).value;
            d.pixelValues.Some? <==> IsCompatibleRasters(base, test)
    ensures var d := CompareRasters(baseMd5, testMd5, base, test).value;
            d.pixelValues.Some? ==> d.pixelValues.value == []
  {
  }

  // ---------------------------------------------------------------------------
  // The OR gate lets through pairs `calc_diff` cannot read
  // ---------------------------------------------------------------------------

  function Props(width: nat, height: nat, bands: nat): RasterProps {
    RasterProps(width, height, bands, "uint8", None, BoundingBox(0.0, 0.0, 1.0, 1.0), Crs("EPSG:4326"),
                Affine(1.0, 0.0, 0.0, 0.0, -1.0, 1.0), map[], [], [])
  }

  /** A two-band 2 x 2 raster and a one-band 2 x 2 raster with the same CRS and transform. */
  function TwoBandBase(): Dataset {
    Dataset(Props(2, 2, 2), [None, None], [[[1.0, 2.0], [3.0, 4.0]], [[5.0, 6.0], [7.0, 8.0]]],
            [[Window(0, 0, 2, 2)], [Window(0, 0, 2, 2)]], map[])
  }

  function OneBandTest(): Dataset {
    Dataset(Props(2, 2, 1), [None], [[[1.0, 2.0], [3.0, 4.0]]], [[Window(0, 0, 2, 2)]], map[])
  }

  /** The gate as written passes the pair (same shape, CRS and transform), so `calc_diff`
      runs and, at band 2, looks up the nodata value of a band the test raster does not
      have: `compare_rasters` fails. The all-match gate rejects the pair (the band counts
      differ) and the report is produced without pixel statistics. */
  lemma OrGateAdmitsMissingBand()
    ensures WellFormed(TwoBandBase()) && WellFormed(OneBandTest())
    ensures IsCompatibleRasters(TwoBandBase(), OneBandTest())
    ensures !IsCompatibleAllMatch(TwoBandBase(), OneBandTest())
    ensures CompareRasters("a", "b", TwoBandBase(), OneBandTest()) == Failure(MissingBand)
    ensures CompareRastersAllMatch("a", "b", TwoBandBase(), OneBandTest()).Success?
    ensures CompareRastersAllMatch("a", "b", TwoBandBase(), OneBandTest()).value.pixelValues.None?
  {
    var b, t := TwoBandBase(), OneBandTest();
    assert IsGrid(b.pixels[0], 2, 2) && IsGrid(b.pixels[1], 2, 2);
    assert WindowWithin(b.blockWindows[0][0], 2, 2) && WindowWithin(b.blockWindows[1][0], 2, 2);
    assert IsGrid(t.pixels[0], 2, 2);
    assert WindowWithin(t.blockWindows[0][0], 2, 2);
  }
}
