/// A value that may be absent.
module Options {
  datatype Option<+T> = None | Some(value: T)
}

/// The records of DicomSeriesLoader.h: the per-series descriptor the catalog
/// builds and the per-slice record the loader sorts and validates.
module SeriesRecords {
  import opened Geometry

  /** Pixel Spacing (0028,0030): the distance between rows, then between columns, in mm. */
  datatype PixelSpacing = PixelSpacing(row: real, col: real)

  /** SeriesInfo: one series found by a directory scan. */
  datatype SeriesInfo = SeriesInfo(
    seriesUID: string,
    modality: string,
    seriesDescription: string,
    patientID: string,
    studyUID: string,
    studyDate: string,
    numSlices: int,
    pixelSpacing: PixelSpacing,
    sliceThickness: real,
    imageRows: int,
    imageCols: int,
    filePaths: seq<string>)
  {
    /** SeriesInfo::isValid: a non-empty UID, at least one slice and a positive image size. */
    predicate IsValid()
    {
      |seriesUID| > 0 && numSlices > 0 && imageRows > 0 && imageCols > 0
    }
  }

  /** A default-constructed SeriesInfo. It has no slices and no image size, so
      it is never valid; its spacing and thickness start at 1 mm. */
  function DefaultSeriesInfo(): (s: SeriesInfo)
    ensures !s.IsValid()
    ensures s.numSlices == 0 && s.imageRows == 0 && s.imageCols == 0 && s.filePaths == []
    ensures s.pixelSpacing == PixelSpacing(1.0, 1.0) && s.sliceThickness == 1.0
  {
    SeriesInfo("", "", "", "", "", "", 0, PixelSpacing(1.0, 1.0), 1.0, 0, 0, [])
  }

  /** SliceInfo: one image of a series, as extracted from its file and later
      stamped by the sequencer with its projection and rank. Rows and columns
      come from the decoder's unsigned image dimensions. */
  datatype SliceInfo = SliceInfo(
    filePath: string,
    imagePosition: Vec3,
    imageOrientation: Orientation,
    sliceLocation: real,
    projectedPosition: real,
    instanceNumber: int,
    sliceIndex: int,
    rows: nat,
    columns: nat,
    bitsAllocated: int,
    bitsStored: int,
    pixelRepresentation: int,
    rescaleIntercept: real,
    rescaleSlope: real,
    hasRescale: bool,
    pixelSpacing: PixelSpacing)
  {
    /** Pixel Representation (0028,0103): 0 is unsigned; any other value takes the signed branch. */
    predicate IsSigned() { pixelRepresentation != 0 }
  }

  /** A default-initialised SliceInfo for a file. The orientation has no default
      initialiser in the source, so it is supplied. Position and projection
      start at zero, the rank is -1 (unsorted), there is no rescale (intercept 0,
      slope 1) and the pixel spacing is 1 mm by 1 mm. */
  function DefaultSliceInfo(path: string, iop: Orientation): (s: SliceInfo)
    ensures s.filePath == path && s.imageOrientation == iop
    ensures s.imagePosition == Vec3(0.0, 0.0, 0.0) && s.projectedPosition == 0.0
    ensures s.sliceIndex == -1 && !s.IsSigned()
    ensures !s.hasRescale && s.rescaleIntercept == 0.0 && s.rescaleSlope == 1.0
    ensures s.pixelSpacing == PixelSpacing(1.0, 1.0)
  {
    SliceInfo(path, Vec3(0.0, 0.0, 0.0), iop, 0.0, 0.0, 0, -1, 0, 0, 0, 0, 0, 0.0, 1.0, false, PixelSpacing(1.0, 1.0))
  }
}
