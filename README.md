# DICOM series-to-volume pipeline, modelled in Dafny

This project models the core of advanced-mpr-viewer: the part that turns a folder
of DICOM files into a 3-D volume, starting from the attribute values and pixel
buffers the DICOM reader has already decoded. It covers four stages:

- **Catalog** (`catalog.dfy`, module `SeriesCatalog`). A directory scan groups
  files by Series Instance UID. The first file of a series supplies its
  attributes, every later file adds its path and one slice, series that fail
  `isValid` are dropped, and the list is sorted by description and then UID.
  `extractSeriesInfo` reads the series attributes of one file and applies the
  defaults.
- **Loader** (`loader.dfy`, module `SeriesLoader`):
  - the consistency check of all slices against the first;
  - the sequencer, which projects each Image Position (Patient) onto the
    normalised cross product of the Image Orientation (Patient) cosines, sorts
    by the projection and writes ranks;
  - the spacing estimate, the median of the consecutive gaps above 1e-6;
  - the assembly of the volume, which copies each slice's pixels into its block
    of the flat buffer and keeps a running min/max.
- **Pixels** (`pixels.dfy`, module `PixelData`). Raw 8/16-bit samples, unsigned
  or two's complement, are widened and rescaled: intercept + slope * value
  (Modality LUT, section C.11.1 of DICOM PS3.3).
- **Volume** (`volume.dfy`, module `Volume3D`). A class holding dimensions,
  spacing, origin, the direction frame and a slice-major `[z][y][x]` buffer. It
  has bounds-checked get/set, the affine voxel/world maps and the orthonormal
  frame check.

Supporting modules:
- `Geometry` (`geometry.dfy`): dot and cross products and normalisation.
- `Sorting` (`sorting.dfy`): an in-place sort standing in for `std::sort`, plus
  the uniqueness of the ascending arrangement of reals.
- `SeriesRecords` and `Options` (`records.dfy`): the `SeriesInfo` and `SliceInfo`
  records with their defaults.

Number and I/O conventions:
- `double` and `float` are modelled as `real`.
- The platform square root is a parameter `sqrt: real -> real`. Lemmas that need
  it exact say so (`ExactSqrtAt`).
- What the DICOM reader returns is input data:
  - per file path, the extracted slice record and the decoded image (format and
    raw bytes), in `SeriesLoader.Reader`;
  - per directory entry, its kind and its attribute set (`SeriesCatalog.FileEntry`).

Behaviour of the code worth noting:
- the slice sort is `std::sort`, which is not stable, so nothing is claimed
  about the order of equal projections;
- the spacing falls back to 1 mm only when no gap above 1e-6 remains, so a
  single gap is used as the spacing;
- a slice copy that would overrun the buffer is skipped, not reported;
- a root that is not a directory gives an empty list and an error, not a
  separate failure.

## Model

| member | source | states |
|---|---|---|
| Geometry.SliceDirectionNormal | src/core/DicomSeriesLoader.cpp:467-476 | The slice direction (row x column) has dot product 0 with both the row and the column cosines, and its squared length is \|row\|²\|col\|² − (row·col)² (Lagrange). |
| Geometry.UnitSliceDirection | src/core/DicomSeriesLoader.cpp:467-476 | Orthogonal unit row and column cosines give a unit slice direction. |
| Geometry.AxialSliceDirection | src/core/DicomSeriesLoader.cpp:467-486 | Orientation (1,0,0,0,1,0) has slice direction (0,0,1), which normalisation leaves unchanged. |
| Geometry.NormalizeRestores | src/core/DicomSeriesLoader.cpp:478-486 | normalizeVector leaves a vector of length ≤ 1e-12 unchanged. Above that, multiplying the result by the length gives back the input. |
| Geometry.NormalizeUnit | src/core/DicomSeriesLoader.cpp:478-486 | With a square root exact at the squared length, a vector longer than 1e-12 normalises to unit length. |
| Geometry.DotCombine | src/core/DicomSeriesLoader.cpp:488-491 | dotProduct distributes over a linear combination of three vectors. |
| Sorting.InsertionSort | src/core/DicomSeriesLoader.cpp:337-340 | The in-place sort leaves the array ordered by any total preorder and a permutation of its old contents. This is all `std::sort` promises. |
| Sorting.SortReals | src/core/DicomSeriesLoader.cpp:372 | The ascending arrangement of the gaps is ordered, a permutation of its input and of the same length. |
| Sorting.SortedUnique | src/core/DicomSeriesLoader.cpp:372 | Two ascending sequences with the same multiset of reals are equal, so any correct sort of the gaps gives the same median. |
| SeriesRecords.DefaultSeriesInfo | src/core/DicomSeriesLoader.h:20-38 | A default SeriesInfo has no slices, no paths and rows = cols = 0, so it is not valid. Its spacing is (1, 1) and its thickness 1. |
| SeriesRecords.DefaultSliceInfo | src/core/DicomSeriesLoader.h:64-84 | A default SliceInfo is at position (0,0,0) with projection 0 and rank −1. It has no rescale (intercept 0, slope 1), is unsigned and has pixel spacing (1, 1). |
| Volume3D.Volume.Empty | src/core/Volume3D.h:63 | The default volume has no dimensions and no voxels, is not valid, and its frame, spacing, range, strings and rescale pair are at their initialisers. |
| Volume3D.Volume.constructor | src/core/Volume3D.h:68-72 | Volume3D(w,h,d) has dimensions w, h, d and a buffer of exactly w·h·d voxels, all 0. Everything else is at its initialiser. |
| Volume3D.Volume.TotalVoxels | src/core/Volume3D.h:77-80 | getTotalVoxels is the length of the buffer of a well-formed volume. |
| Volume3D.Volume.ValidIffPositiveDimensions | src/core/Volume3D.h:85-88 | A well-formed volume is valid exactly when all three dimensions are positive. The non-empty-buffer test then follows. |
| Volume3D.Volume.GetVoxel | src/core/Volume3D.h:97-106 | getVoxel is 0 outside the volume. Inside, it is element y·width + x of the z-th width·height block of the buffer. |
| Volume3D.IndexInRange | src/core/Volume3D.h:102-105 | An in-bounds (x, y, z) maps to an index below w·h·d, inside the block of slice z. |
| Volume3D.IndexInjective | src/core/Volume3D.h:102-104 | Two in-bounds coordinates with the same index are the same coordinate. |
| Volume3D.Volume.SetVoxel | src/core/Volume3D.h:111-120 | Out of bounds, setVoxel changes nothing. In bounds, getVoxel at that coordinate returns the value, and every other coordinate reads as before. |
| Volume3D.Volume.WorldToVoxel | src/core/Volume3D.h:131-143 | worldToVoxel maps the origin to voxel (0, 0, 0). |
| Volume3D.Volume.VoxelToWorld | src/core/Volume3D.h:148-159 | voxelToWorld maps voxel (0, 0, 0) to the origin. |
| Volume3D.Volume.VoxelWorldRoundTrip | src/core/Volume3D.h:131-159 | With an exactly orthonormal frame and nonzero spacing, worldToVoxel(voxelToWorld(v)) == v. |
| Volume3D.Volume.RightHandedFramePasses | src/core/Volume3D.h:165-203 | A frame of orthogonal unit row and column vectors, with slice = row x column, passes isOrthonormal at any tolerance. |
| Volume3D.Volume.PassingAtZeroIsExact | src/core/Volume3D.h:165-203 | At tolerance 0, with an exact square root, passing isOrthonormal means unit lengths, zero dot products and slice = row x column. |
| PixelData.RawSample | src/core/DicomSeriesLoader.cpp:410-453 | Sample i, read as uint8, int8, uint16 or int16 by bits allocated and pixel representation, lies in that type's range. |
| PixelData.DecodeEncode | src/core/DicomSeriesLoader.cpp:413-445 | Decoding the little-endian two's-complement bytes of an in-range value gives the value back. |
| PixelData.EncodeDecode | src/core/DicomSeriesLoader.cpp:413-445 | Encoding a decoded sample gives back exactly the buffer bytes it was read from. |
| PixelData.Rescale | src/core/DicomSeriesLoader.cpp:415-418 | Without a rescale pair a sample keeps its raw value. With slope 1 it is intercept + raw. |
| PixelData.DecodedPixels | src/core/DicomSeriesLoader.cpp:404-405 | A slice converts to exactly rows·columns values. |
| PixelData.SampleAt | src/core/DicomSeriesLoader.cpp:414-419 | The i-th converted value is the rescaled i-th raw sample, and that sample lies inside the buffer. |
| PixelData.LoadPixelData | src/core/DicomSeriesLoader.cpp:385-465 | loadPixelData succeeds exactly when the image is readable and has 8 or 16 bits allocated. A readable image always yields rows·columns values. On success, value i is the rescaled raw sample i. |
| PixelData.RescaleExample | src/core/DicomSeriesLoader.cpp:412-420 | Unsigned 16-bit 100 with intercept −1024 and slope 1 becomes −924. |
| SeriesLoader.ValidateSliceConsistency | src/core/DicomSeriesLoader.cpp:276-318 | False for no slices. Otherwise true exactly when every later slice has the first slice's rows, columns, bits allocated, bits stored and pixel representation, and all 6 orientation values and both pixel spacings within 1e-6. |
| SeriesLoader.ConsistentSameFormat | src/core/DicomSeriesLoader.cpp:284-299 | Any two slices of a consistent series share size and pixel format. |
| SeriesLoader.RowMismatchInconsistent | src/core/DicomSeriesLoader.cpp:288-291 | Two slices that differ in rows are not a consistent series. |
| SeriesLoader.SortSlices | src/core/DicomSeriesLoader.cpp:320-348 | Fails, changing nothing, on no slices. Otherwise the array becomes a permutation of the input, each position projected on the first slice's unit normal, ascending in projection, with slice i given index i. |
| SeriesLoader.ProjectSlices | src/core/DicomSeriesLoader.cpp:331-334 | The projection loop replaces each slice's projected position with the dot product of its position and the normal, and changes nothing else. |
| SeriesLoader.RankSlices | src/core/DicomSeriesLoader.cpp:342-345 | The ranking loop gives the slice at place i the index i and changes nothing else. |
| SeriesLoader.SortedPositions | src/core/DicomSeriesLoader.cpp:337-345 | However ties are broken, the sorted projections are the ascending arrangement of the projections, and ranking does not change them. |
| SeriesLoader.ResortKeepsPositions | src/core/DicomSeriesLoader.cpp:337-340 | Re-sorting an already sorted series leaves its sequence of projections unchanged. |
| SeriesLoader.ResortIsIdentity | src/core/DicomSeriesLoader.cpp:337-340 | If the projections are strictly ascending, re-sorting returns the same sequence. |
| SeriesLoader.CalculateSliceSpacing | src/core/DicomSeriesLoader.cpp:350-383 | The loop computes SliceSpacing of the projected positions: the median of the gaps above 1e-6, with the 1 mm fallbacks. |
| SeriesLoader.SortedMedian | src/core/DicomSeriesLoader.cpp:371-380 | Sorting the gaps in place and reading the middle gives the median of their ascending arrangement, averaging the two middle values for an even count. |
| SeriesLoader.GapsAboveTolerance | src/core/DicomSeriesLoader.cpp:360-365 | Every kept gap exceeds 1e-6, and there is at most one per consecutive pair. |
| SeriesLoader.NoGapsIff | src/core/DicomSeriesLoader.cpp:360-369 | No gap is kept exactly when no consecutive difference exceeds 1e-6. |
| SeriesLoader.MedianBounds | src/core/DicomSeriesLoader.cpp:373-380 | The median of an ascending sequence lies between its first and last elements. |
| SeriesLoader.SpacingFallback | src/core/DicomSeriesLoader.cpp:352-369 | Fewer than two slices, or no step above 1e-6, gives a spacing of 1 mm. |
| SeriesLoader.SpacingIsMedianGap | src/core/DicomSeriesLoader.cpp:371-382 | If some step exceeds 1e-6, the spacing is the median gap. It lies between the smallest and largest gap and is always above 1e-6. |
| SeriesLoader.UniformSpacing | src/core/DicomSeriesLoader.cpp:356-382 | Slices a constant step d > 1e-6 apart have spacing d. |
| SeriesLoader.UniformGaps | src/core/DicomSeriesLoader.cpp:360-365 | Slices a constant step d apart give |p|−1 gaps of d. |
| SeriesLoader.SpacingIgnoresOutlier | src/core/DicomSeriesLoader.cpp:356-382 | Projections 0, 1, 2, 3, 10 give spacing 1 (median of 1, 1, 1, 7), not the mean 2.5. |
| SeriesLoader.DuplicateSliceIgnored | src/core/DicomSeriesLoader.cpp:360-365 | A second slice at the position of any slice k adds no gap and does not change the spacing. |
| SeriesLoader.ExtractAll | src/core/DicomSeriesLoader.cpp:57-64 | Every record kept by the file loop carries the size extracted from its own file. |
| SeriesLoader.ExtractSlices | src/core/DicomSeriesLoader.cpp:53-64 | The file loop keeps, in file order, the record of each file that extracts, stamped with its path. |
| SeriesLoader.StackBlock | src/core/DicomSeriesLoader.cpp:131-136 | In blocks of equal size s laid end to end, block z occupies [z·s, z·s + s). |
| SeriesLoader.CopySlice | src/core/DicomSeriesLoader.cpp:134-143 | The copy writes the slice at its offset and leaves every other index unchanged. The new vmin is the old one or one of the copied values, and it bounds them all from below; vmax is the same from above. That is std::min and std::max folded over the slice. |
| SeriesLoader.RunningRangeUnique | src/core/DicomSeriesLoader.cpp:124-142 | The running range over a list of values is unique: two pairs that both satisfy it are equal, so vmin and vmax are fixed by the voxels and are not merely bounds. |
| SeriesLoader.RunningRangeAttained | src/core/DicomSeriesLoader.cpp:124-142 | Over values within float range, the running range is attained: vmin and vmax are values of the list. Over no values they keep their seeds, the largest float and its negation. |
| SeriesLoader.LoadSlice | src/core/DicomSeriesLoader.cpp:128-129 | Loading a slice through its reader succeeds exactly when its image is readable with 8 or 16 bits allocated, and then yields that slice's converted pixels. |
| SeriesLoader.CopyNext | src/core/DicomSeriesLoader.cpp:127-148 | One pass of the copy loop: fails exactly when slice i does not load. Otherwise block i of the zero tail now holds slice i's pixels, and vmin and vmax are the running minimum and maximum of every value copied so far. |
| SeriesLoader.AssemblePixels | src/core/DicomSeriesLoader.cpp:127-148 | On a zero-filled columns × rows × n buffer, with blocks of width·height values and the range seeded with the largest float and its negation, the copy loop stops at the first slice whose pixels do not load and reports its index, all earlier slices having loaded. On success the buffer is the slices' converted pixels, block by block in rank order, and vmin and vmax are the running minimum and maximum of all voxels (RunningRange). |
| SeriesLoader.LoadFromSeriesInfo | src/core/DicomSeriesLoader.cpp:38-176 | Each rejection happens exactly in its case: an invalid descriptor, an empty file list, a list of which no file extracts, and an inconsistent series. The sort never fails. Any failure, including a slice that does not load, gives the empty invalid volume. A valid, consistent series whose extracted slices all load always succeeds, and success gives the Assembled volume of the sorted, ranked slices. |
| SeriesLoader.BuildVolume | src/core/DicomSeriesLoader.cpp:84-155 | Builds a columns × rows × n volume from slices in final order. A slice that does not load gives the empty volume. Otherwise the volume is Assembled: the slices' pixels, their exact running minimum and maximum, and the first slice's geometry and rescale pair. |
| SeriesLoader.NewSeriesVolume | src/core/DicomSeriesLoader.cpp:84-125 | The allocated volume is columns × rows × n zeros. Its x/y spacing is the first slice's column/row pixel spacing and its z spacing the estimate. Origin, normalised row, column and slice directions come from the first slice. It carries the series' strings and the float sentinels as range. |
| SeriesLoader.CopyDescriptors | src/core/DicomSeriesLoader.cpp:116-121 | The volume's six descriptive strings are those of the series. |
| SeriesLoader.PlaceSeries | src/core/DicomSeriesLoader.cpp:86-113 | The volume's spacing is the first slice's column and row pixel spacing and the estimated slice spacing. Its origin is the first slice's position, and its directions are the normalised row and column cosines and their normalised cross product. |
| SeriesLoader.CopyRescale | src/core/DicomSeriesLoader.cpp:150-155 | The volume has rescale parameters exactly when the first slice has them, and then carries its intercept and slope. Otherwise it keeps 0 and 1. |
| SeriesLoader.SortedSlicesFromFiles | src/core/DicomSeriesLoader.cpp:72-84 | After sorting, every slice is still the record of its own file, with the first slice's rows and columns. |
| SeriesLoader.SortedSlicesLoadable | src/core/DicomSeriesLoader.cpp:127-129 | Whether loadPixelData succeeds depends only on a slice's file, so when every extracted slice loads, every sorted and ranked slice loads too. |
| SeriesLoader.AssembledVoxel | src/core/DicomSeriesLoader.cpp:127-148 | In a loaded volume, voxel (x, y, z) is the converted pixel y·width + x of the z-th slice in sorted order. |
| SeriesLoader.SeriesVoxel | src/core/DicomSeriesLoader.cpp:127-148 | In a buffer laid out as the slices' pixels in order, all of one size, voxel (x, y, z) is pixel y·width + x of slice z. |
| SeriesLoader.StackVoxel | src/core/Volume3D.h:97-106 | getVoxel on a buffer of depth equal blocks reads element y·width + x of block z. |
| SeriesCatalog.ExtractSeriesInfo | src/core/DicomSeriesManager.cpp:132-241 | An unreadable file is rejected and every out-parameter keeps its value. Otherwise acceptance means a non-empty UID and positive rows and columns. Absent or short Pixel Spacing gives (1, 1), absent thickness gives 1, and absent Rows keeps the entry value. |
| SeriesCatalog.MissingRowsAccepted | src/core/DicomSeriesManager.cpp:38-45 | As written, a file without Rows is accepted when the uninitialised rows holds a positive value, and its rows are recorded as that value. |
| SeriesCatalog.ExtractInitialised | src/core/DicomSeriesManager.cpp:222-235 | With rows and columns starting at 0, a file is accepted exactly when it is readable and has a non-empty UID and positive Rows and Columns. The accepted UID, rows and columns are the file's own. |
| SeriesCatalog.FirstOfFacts | src/core/DicomSeriesManager.cpp:43-64 | A UID has a first accepted file exactly when it has an accepted path. That file carries the UID, which is non-empty, and positive rows and columns. |
| SeriesCatalog.GroupIsFirstFileWithAllPaths | src/core/DicomSeriesManager.cpp:48-68 | The map has a series for exactly the UIDs of accepted files. Each series has its first file's attributes, all its accepted paths in walk order, and a count equal to the number of paths. |
| SeriesCatalog.GroupsValid | src/core/DicomSeriesManager.cpp:48-84 | Every grouped series is keyed by its own UID and is valid, with numSlices equal to the number of its paths, so the validity filter drops nothing. |
| SeriesCatalog.GroupEntries | src/core/DicomSeriesManager.cpp:30-76 | The file loop builds exactly the grouping map of the walk. |
| SeriesCatalog.CollectValid | src/core/DicomSeriesManager.cpp:78-84 | The list holds every valid series of the map once, and nothing else. |
| SeriesCatalog.StringLessIrreflexive | src/core/DicomSeriesManager.cpp:89-92 | String < is irreflexive. |
| SeriesCatalog.StringLessTransitive | src/core/DicomSeriesManager.cpp:89-92 | String < is transitive. |
| SeriesCatalog.StringLessTotal | src/core/DicomSeriesManager.cpp:89-92 | Of two different strings, one is < the other. |
| SeriesCatalog.SeriesBeforeTransitive | src/core/DicomSeriesManager.cpp:87-93 | The (description, UID) comparison is transitive. |
| SeriesCatalog.SeriesBeforeIrreflexive | src/core/DicomSeriesManager.cpp:87-93 | The (description, UID) comparison is irreflexive. |
| SeriesCatalog.SeriesBeforeTotal | src/core/DicomSeriesManager.cpp:87-93 | Two series with different UIDs are ordered one way or the other. |
| SeriesCatalog.SeriesLeTotalPreorder | src/core/DicomSeriesManager.cpp:87-93 | The comparison is a strict weak order, which `std::sort` requires. |
| SeriesCatalog.ScanDirectory | src/core/DicomSeriesManager.cpp:18-109 | A root that is not a directory gives no series and an error. Otherwise the result holds exactly the valid series of the grouping map, each once, in strictly ascending (description, UID) order. |
| SeriesCatalog.CatalogUnique | src/core/DicomSeriesManager.cpp:86-93 | Two strictly ascending lists with the same series are equal, so the scan result does not depend on map order or on how the sort runs. |

## Left out

- File and directory I/O, the DICOM reader, `isDicomFile` and `extractSliceInfo` are inputs. The walk is a sequence of `FileEntry`, and the loader reads from a `Reader` mapping paths to slice records and decoded images.
- Filesystem exceptions are not modelled: the `try`/`catch` blocks and the scan's exception path that clears the list.
- Console logging, the `s_lastError` and `getLastError` error state, and the error message strings. Failures are explicit values instead: `LoadError`, and the `notDirectory` flag of `ScanDirectory`.
- `loadFromDirectory` is a stub that always fails.
- `copyVector` is not called anywhere in the core. Vectors are values here, so a copy is an assignment.
- `Geometry.Normalize` models `normalizeVector` on values, because every caller writes the result back to one vector. The square root is a parameter, and unit length is proved only for an exact root.
- `Volume3D.Volume.IsOrthonormal` takes the square root as a parameter in the unit-length test.
- Floating-point behaviour is not modelled: rounding, `static_cast<float>`, infinities and NaN. `numeric_limits<float>::max()` and `lowest()` are exact reals.
- `PixelData.RawSample` decodes the buffer little-endian, while the source reinterprets it in host byte order.
- Integer widths are not modelled: `size_t` index arithmetic, the `int` slice counter and dimensions are unbounded. Slice rows and columns are `nat`, as the decoder's unsigned dimensions are.
- `PixelData.LoadPixelData` requires the buffer to hold rows·columns samples, because the source reads that many without checking.
- `SeriesLoader.LoadFromSeriesInfo` requires `Reader.Coherent()` for the same reason.
- `SeriesLoader.AssemblePixels` requires every slice to have the first slice's rows and columns, which the consistency check guarantees. It also requires the range seeded as the source seeds it just before the loop. The skip of an overrunning copy is kept in the loop, but it is never taken.
- `SeriesLoader.SortSlices` says nothing about the order of slices with equal projections, since `std::sort` is not stable. Positions and spacing are shown independent of it.
- `SeriesLoader.LoadFromSeriesInfo` keeps the sort-failure branch of the source, which cannot be taken after the non-empty check.
- `Volume3D.Volume.WorldToVoxel` requires nonzero spacing. Over reals a division by zero has no value; the source would produce an infinity or NaN.
- `SeriesCatalog.CollectValid` visits the map's keys in an unspecified order instead of `std::map`'s ascending order. `CatalogUnique` shows that the sort makes the final list independent of that order.
- `SeriesCatalog.ScanDirectory`, `SeriesCatalog.Group`, `SeriesCatalog.GroupEntries` and `SeriesCatalog.Accepted` use the corrected `ExtractInitialised`, which takes the uninitialised `rows` and `columns` locals as 0. So the scan model always rejects a file without Rows or Columns. The code as written, which may accept such a file, is shown only by `SeriesCatalog.MissingRowsAccepted` (see Findings).
- The uninitialised `imageOrientation` of a default `SliceInfo` is not modelled: every record carries an orientation.
- `SeriesCatalog.ExtractSeriesInfo` does not model trailing padding in attribute strings. Strings are taken as the reader returns them.

## Findings

| source | as written | input that shows it | evidently intended | confidence | as-written member | corrected member |
|---|---|---|---|---|---|---|
| src/core/DicomSeriesManager.cpp:41 | `rows` and `columns` are declared without an initialiser. `extractSeriesInfo` assigns them only when Rows and Columns are present, then tests `rows > 0 && columns > 0`. | A file with a Series Instance UID and Columns 512 but no Rows element, while the indeterminate `rows` holds 512: the file is accepted, and its series records 512 rows. | A file without Rows or Columns is rejected: the locals start at 0. | medium; not executed (reading an indeterminate value is undefined behaviour, so the outcome depends on the build) | SeriesCatalog.MissingRowsAccepted | SeriesCatalog.ExtractInitialised |
