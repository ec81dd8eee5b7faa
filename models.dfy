/** Value types of the raster comparison: the properties read from a raster dataset,
    the per-band pixel statistics and the structural diff report. */
module Models {

  datatype Option<+T> = None | Some(value: T)

  datatype Result<+R, +E> = Success(value: R) | Failure(error: E)

  /** A rectangle of a band's pixel grid, as the raster library's block windows describe it. */
  datatype Window = Window(rowOff: nat, colOff: nat, height: nat, width: nat)

  /** One pixel position: row index, then column index. */
  datatype Cell = Cell(row: nat, col: nat)

  /** A band's pixels, row by row, in the band's native numeric values. */
  type Grid = seq<seq<real>>

  predicate IsGrid(g: Grid, height: nat, width: nat) {
    |g| == height && forall r :: 0 <= r < |g| ==> |g[r]| == width
  }

  predicate WindowWithin(w: Window, height: nat, width: nat) {
    w.rowOff + w.height <= height && w.colOff + w.width <= width
  }

  /** Collaborator values: compared only for equality. */
  datatype Crs = Crs(wkt: string)
  datatype Affine = Affine(a: real, b: real, c: real, d: real, e: real, f: real)
  datatype BoundingBox = BoundingBox(left: real, bottom: real, right: real, top: real)
  datatype BandStatistics = BandStatistics(min: real, max: real, mean: real, std: real)

  /** The properties `read_raster_props` collects from an open dataset. */
  datatype RasterProps = RasterProps(
    width: nat,
    height: nat,
    bands: nat,
    dtype: string,
    nodata: Option<real>,
    bbox: BoundingBox,
    crs: Crs,
    transform: Affine,
    metadata: map<string, string>,
    bandsMetadata: seq<map<string, string>>,
    stats: seq<BandStatistics>)

  /** An open raster dataset, as far as the comparison consumes it: its properties, the
      per-band nodata values, the pixels of every band, the block windows of every band
      and the remaining creation options of its profile (driver, block size, ...). */
  datatype Dataset = Dataset(
    props: RasterProps,
    nodatavals: seq<Option<real>>,
    pixels: seq<Grid>,
    blockWindows: seq<seq<Window>>,
    options: map<string, string>)

  /** What the raster library guarantees of an open dataset: a positive size, one pixel
      grid and one window sequence per band, a nodata tuple that is empty or has one entry
      per band, and block windows inside the band. */
  predicate WellFormed(ds: Dataset) {
    && ds.props.width >= 1 && ds.props.height >= 1
    && |ds.pixels| == ds.props.bands
    && |ds.blockWindows| == ds.props.bands
    && (|ds.nodatavals| == 0 || |ds.nodatavals| == ds.props.bands)
    && (forall b :: 0 <= b < |ds.pixels| ==> IsGrid(ds.pixels[b], ds.props.height, ds.props.width))
    && (forall b, k :: 0 <= b < |ds.blockWindows| && 0 <= k < |ds.blockWindows[b]| ==>
          WindowWithin(ds.blockWindows[b][k], ds.props.height, ds.props.width))
  }

  /** A dataset's profile: the creation options plus the entries the comparison touches. */
  datatype Profile = Profile(
    options: map<string, string>,
    dtype: string,
    nodata: Option<real>,
    width: nat,
    height: nat,
    count: nat,
    crs: Crs,
    transform: Affine)

  function ProfileOf(ds: Dataset): Profile {
    Profile(ds.options, ds.props.dtype, ds.props.nodata, ds.props.width, ds.props.height,
            ds.props.bands, ds.props.crs, ds.props.transform)
  }

  /** Per-band pixel comparison result. `meanSquaredDiff` is the square of the reported
      RMSE: the sum of squared differences over the band's whole pixel count. */
  datatype PixelDiffStats = PixelDiffStats(
    diffCount: nat,
    totalCount: nat,
    diffPercent: real,
    maxDiff: real,
    meanSquaredDiff: real)

  /** One (equal, base, test) record of the structural report. */
  datatype Comparison<T> = Comparison(equal: bool, base: T, test: T)

  function Compared<T(==)>(base: T, test: T): Comparison<T> {
    Comparison(base == test, base, test)
  }

  datatype RasterDiff = RasterDiff(
    checksum: Comparison<string>,
    bands: Comparison<nat>,
    width: Comparison<nat>,
    height: Comparison<nat>,
    dtype: Comparison<string>,
    nodata: Comparison<Option<real>>,
    bbox: Comparison<BoundingBox>,
    crs: Comparison<Crs>,
    transform: Comparison<Affine>,
    metadata: Comparison<map<string, string>>,
    bandsMetadata: Comparison<seq<map<string, string>>>,
    stats: Comparison<seq<BandStatistics>>,
    pixelValues: Option<seq<PixelDiffStats>>)
}
