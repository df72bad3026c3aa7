/// DicomSeriesLoader.cpp: turns the files of one series into a Volume.
/// The slices are validated against the first, ordered along the slice normal,
/// their spacing is estimated, and each slice's converted pixels are copied
/// into the volume's buffer at the block of its rank.
module SeriesLoader {
  import opened Options
  import opened Geometry
  import opened Sorting
  import opened SeriesRecords
  import opened PixelData
  import opened Volume3D

  /** Absolute tolerance of the consistency check and of the spacing estimate. */
  const Epsilon: real := 1e-6

  /** a and b differ by at most the tolerance. */
  predicate Near(a: real, b: real) { Abs(a - b) <= Epsilon }

  // ---------------------------------------------------------------------------
  // Consistency

  /** Slice s can share a regular grid with the first slice: same size and pixel
      format exactly, same orientation and pixel spacing within the tolerance. */
  predicate MatchesFirst(first: SliceInfo, s: SliceInfo)
  {
    && s.rows == first.rows && s.columns == first.columns
    && s.bitsAllocated == first.bitsAllocated && s.bitsStored == first.bitsStored
    && s.pixelRepresentation == first.pixelRepresentation
    && (forall j :: 0 <= j < 6 ==> Near(s.imageOrientation.Component(j), first.imageOrientation.Component(j)))
    && Near(s.pixelSpacing.row, first.pixelSpacing.row)
    && Near(s.pixelSpacing.col, first.pixelSpacing.col)
  }

  /** A non-empty series every slice of which matches the first. */
  predicate Consistent(slices: seq<SliceInfo>)
  {
    |slices| > 0 && forall i :: 1 <= i < |slices| ==> MatchesFirst(slices[0], slices[i])
  }

  /** validateSliceConsistency: false for no slices, and otherwise true exactly
      when every slice after the first matches the first. */
  method ValidateSliceConsistency(slices: seq<SliceInfo>) returns (ok: bool)
    ensures ok <==> Consistent(slices)
  {
    if |slices| == 0 {
      return false;
    }
    var first := slices[0];
    var i := 1;
    while i < |slices|
      invariant 1 <= i <= |slices|
      invariant forall k :: 1 <= k < i ==> MatchesFirst(first, slices[k])
    {
      var slice := slices[i];
      if slice.rows != first.rows || slice.columns != first.columns {
        return false;
      }
      if slice.bitsAllocated != first.bitsAllocated
        || slice.bitsStored != first.bitsStored
        || slice.pixelRepresentation != first.pixelRepresentation {
        return false;
      }
      var j := 0;
      while j < 6
        invariant 0 <= j <= 6
        invariant forall m :: 0 <= m < j ==> Near(slice.imageOrientation.Component(m), first.imageOrientation.Component(m))
      {
        if Abs(slice.imageOrientation.Component(j) - first.imageOrientation.Component(j)) > Epsilon {
          assert !MatchesFirst(first, slice);
          return false;
        }
        j := j + 1;
      }
      if Abs(slice.pixelSpacing.row - first.pixelSpacing.row) > Epsilon
        || Abs(slice.pixelSpacing.col - first.pixelSpacing.col) > Epsilon {
        return false;
      }
      i := i + 1;
    }
    return true;
  }

  /** In a consistent series all slices have the same size and pixel format. */
  lemma ConsistentSameFormat(slices: seq<SliceInfo>, i: nat, j: nat)
    requires Consistent(slices) && i < |slices| && j < |slices|
    ensures slices[i].rows == slices[j].rows && slices[i].columns == slices[j].columns
    ensures slices[i].bitsAllocated == slices[j].bitsAllocated
    ensures slices[i].pixelRepresentation == slices[j].pixelRepresentation
  {
    if i > 0 { assert MatchesFirst(slices[0], slices[i]); }
    if j > 0 { assert MatchesFirst(slices[0], slices[j]); }
  }

  // ---------------------------------------------------------------------------
  // Sequencing

  /** The unit normal the sequencer projects onto: row x column of an orientation, normalised. */
  function SliceNormal(iop: Orientation, sqrt: real -> real): Vec3
  {
    Normalize(SliceDirection(iop), sqrt)
  }

  /** A slice with its position projected onto the normal. */
  function Projected(s: SliceInfo, normal: Vec3): SliceInfo
  {
    s.(projectedPosition := Dot(s.imagePosition, normal))
  }

  function ProjectAll(slices: seq<SliceInfo>, normal: Vec3): (r: seq<SliceInfo>)
    ensures |r| == |slices|
  {
    seq(|slices|, i requires 0 <= i < |slices| => Projected(slices[i], normal))
  }

  /** The slices with their ranks: the i-th gets index i. */
  function Ranked(slices: seq<SliceInfo>): (r: seq<SliceInfo>)
    ensures |r| == |slices|
  {
    seq(|slices|, i requires 0 <= i < |slices| => slices[i].(sliceIndex := i))
  }

  /** The sort comparison: by projected position. */
  predicate ProjectedLe(a: SliceInfo, b: SliceInfo)
  {
    a.projectedPosition <= b.projectedPosition
  }

  /** sortSlices: fails on no slices. Otherwise the slices end up as a permutation
      of the input with each position projected on the first slice's normal,
      in ascending projection, each slice's index equal to its rank.
      `sorted` is that arrangement before the ranks are written. */
  method SortSlices(slices: array<SliceInfo>, sqrt: real -> real) returns (ok: bool, ghost sorted: seq<SliceInfo>)
    modifies slices
    ensures ok <==> slices.Length > 0
    ensures !ok ==> slices[..] == old(slices[..])
    ensures ok ==> multiset(sorted) == multiset(ProjectAll(old(slices[..]), SliceNormal(old(slices[0]).imageOrientation, sqrt)))
    ensures ok ==> SortedBy(sorted, ProjectedLe)
    ensures ok ==> slices[..] == Ranked(sorted)
    ensures ok ==> forall i, j :: 0 <= i < j < slices.Length ==> slices[i].projectedPosition <= slices[j].projectedPosition
    ensures ok ==> forall i :: 0 <= i < slices.Length ==> slices[i].sliceIndex == i
  {
    if slices.Length == 0 {
      return false, [];
    }
    var sliceDirection := SliceNormal(slices[0].imageOrientation, sqrt);
    ProjectSlices(slices, sliceDirection);
    InsertionSort(slices, ProjectedLe);
    sorted := slices[..];
    RankSlices(slices);
    ok := true;
  }

  /** The projection loop of sortSlices: each slice's position projected on the normal. */
  method ProjectSlices(slices: array<SliceInfo>, normal: Vec3)
    modifies slices
    ensures slices[..] == ProjectAll(old(slices[..]), normal)
  {
    var i := 0;
    while i < slices.Length
      invariant 0 <= i <= slices.Length
      invariant forall k :: 0 <= k < i ==> slices[k] == Projected(old(slices[k]), normal)
      invariant forall k :: i <= k < slices.Length ==> slices[k] == old(slices[k])
    {
      slices[i] := slices[i].(projectedPosition := Dot(slices[i].imagePosition, normal));
      i := i + 1;
    }
  }

  /** The ranking loop of sortSlices: each slice's index set to its place. */
  method RankSlices(slices: array<SliceInfo>)
    modifies slices
    ensures slices[..] == Ranked(old(slices[..]))
  {
    var i := 0;
    while i < slices.Length
      invariant 0 <= i <= slices.Length
      invariant forall k :: 0 <= k < i ==> slices[k] == old(slices[k]).(sliceIndex := k)
      invariant forall k :: i <= k < slices.Length ==> slices[k] == old(slices[k])
    {
      slices[i] := slices[i].(sliceIndex := i);
      i := i + 1;
    }
  }

  // ---------------------------------------------------------------------------
  // Spacing

  /** The projected positions of the slices, in order. */
  function Positions(slices: seq<SliceInfo>): (p: seq<real>)
    ensures |p| == |slices|
  {
    seq(|slices|, i requires 0 <= i < |slices| => slices[i].projectedPosition)
  }

  /** The consecutive differences of the positions that exceed the tolerance, in order. */
  function Gaps(p: seq<real>): seq<real>
  {
    if |p| < 2 then []
    else
      var d := p[|p| - 1] - p[|p| - 2];
      Gaps(p[..|p| - 1]) + if d > Epsilon then [d] else []
  }

  /** The middle element of a sorted sequence, or the mean of the two middle ones. */
  function Median(s: seq<real>): real
    requires |s| > 0
  {
    var mid := |s| / 2;
    if |s| % 2 == 0 then (s[mid - 1] + s[mid]) / 2.0 else s[mid]
  }

  /** The slice spacing calculateSliceSpacing estimates from the projected positions. */
  function SliceSpacing(p: seq<real>): real
  {
    if |p| < 2 then 1.0
    else
      var gaps := Gaps(p);
      if |gaps| == 0 then 1.0
      else
        var m := Median(SortReals(gaps));
        if m > Epsilon then m else 1.0
  }

  /** One more position adds at most its own gap, at the end. */
  lemma GapsStep(p: seq<real>, i: nat)
    requires 1 <= i < |p|
    ensures Gaps(p[..i + 1]) == Gaps(p[..i]) + if p[i] - p[i - 1] > Epsilon then [p[i] - p[i - 1]] else []
  {
    assert p[..i + 1][..i] == p[..i];
  }

  /** calculateSliceSpacing: collects the gaps above the tolerance, sorts them in
      place and takes their median. */
  method CalculateSliceSpacing(slices: seq<SliceInfo>) returns (spacing: real)
    ensures spacing == SliceSpacing(Positions(slices))
  {
    if |slices| < 2 {
      return 1.0;
    }
    ghost var p := Positions(slices);
    var spacings: seq<real> := [];
    var i := 1;
    while i < |slices|
      invariant 1 <= i <= |slices|
      invariant spacings == Gaps(p[..i])
    {
      var d := slices[i].projectedPosition - slices[i - 1].projectedPosition;
      assert d == p[i] - p[i - 1];
      GapsStep(p, i);
      if d > Epsilon {
        spacings := spacings + [d];
      }
      i := i + 1;
    }
    assert p[..|slices|] == p;
    if |spacings| == 0 {
      return 1.0;
    }
    var medianSpacing := SortedMedian(spacings);
    spacing := if medianSpacing > Epsilon then medianSpacing else 1.0;
  }

  /** The median step of calculateSliceSpacing: sorts a copy of the gaps in
      place and reads off the middle. */
  method SortedMedian(spacings: seq<real>) returns (m: real)
    requires |spacings| > 0
    ensures m == Median(SortReals(spacings))
  {
    var sorted := new real[|spacings|](k requires 0 <= k < |spacings| => spacings[k]);
    assert sorted[..] == spacings;
    RealLeTotalPreorder();
    InsertionSort(sorted, RealLe);
    SortedUnique(sorted[..], SortReals(spacings));
    var mid := sorted.Length / 2;
    if sorted.Length % 2 == 0 {
      m := (sorted[mid - 1] + sorted[mid]) / 2.0;
    } else {
      m := sorted[mid];
    }
  }

  // ---------------------------------------------------------------------------
  // Assembly

  datatype LoadError =
    | InvalidSeriesInfo
    | NoFiles
    | NoValidSlices
    | InconsistentSlices
    | SortFailed
    | PixelLoadFailed(slice: nat)

  /** What the image reader yields for each file path: the slice record
      extracted from it (absent when the file cannot be parsed) and its pixel
      format and raw buffer (absent when the file cannot be re-read). */
  datatype Reader = Reader(slices: map<string, SliceInfo>, images: map<string, DecodedImage>)
  {
    /** Every image holds the samples its slice record's size calls for. */
    predicate Coherent()
    {
      forall p :: p in slices && p in images ==> BufferCovers(slices[p], images[p])
    }

    function ImageOf(s: SliceInfo): Option<DecodedImage>
    {
      if s.filePath in images then Some(images[s.filePath]) else None
    }

    /** loadPixelData succeeds for s. */
    predicate Loadable(s: SliceInfo)
    {
      s.filePath in images && images[s.filePath].Supported()
    }

    /** s carries the size of the record extracted from its own file. */
    predicate FromFile(s: SliceInfo)
    {
      s.filePath in slices && s.rows == slices[s.filePath].rows && s.columns == slices[s.filePath].columns
    }
  }

  /** The records of the files that extract, in file order, each stamped with its path. */
  function ExtractAll(paths: seq<string>, reader: Reader): (r: seq<SliceInfo>)
    ensures forall i :: 0 <= i < |r| ==> reader.FromFile(r[i])
  {
    if paths == [] then []
    else
      var p := paths[|paths| - 1];
      ExtractAll(paths[..|paths| - 1], reader) + if p in reader.slices then [reader.slices[p].(filePath := p)] else []
  }

  /** The converted pixels of a slice that loads. */
  function PixelsOf(reader: Reader, s: SliceInfo): (pixels: seq<real>)
    requires reader.Coherent() && reader.Loadable(s) && reader.FromFile(s)
    ensures |pixels| == s.rows * s.columns
  {
    DecodedPixels(s, reader.images[s.filePath])
  }

  /** The blocks laid end to end. */
  function Stack(blocks: seq<seq<real>>): seq<real>
  {
    if blocks == [] then [] else Stack(blocks[..|blocks| - 1]) + blocks[|blocks| - 1]
  }

  /** In a stack of equal-sized blocks, block z occupies [z*size, z*size + size). */
  lemma {:induction false} StackBlock(blocks: seq<seq<real>>, size: nat, z: nat)
    requires forall i :: 0 <= i < |blocks| ==> |blocks[i]| == size
    requires z < |blocks|
    ensures |Stack(blocks)| == |blocks| * size
    ensures z * size + size <= |Stack(blocks)|
    ensures Stack(blocks)[z * size..z * size + size] == blocks[z]
  {
    var init, last := blocks[..|blocks| - 1], blocks[|blocks| - 1];
    assert Stack(blocks) == Stack(init) + last;
    StackLength(init, size);
    StackLength(blocks, size);
    BlockFits(z, |blocks|, size);
    if z < |init| {
      StackBlock(init, size, z);
      ConcatSliceLeft(Stack(init), last, z * size, z * size + size);
    } else {
      ConcatSliceRight(Stack(init), last);
    }
  }

  lemma ConcatSliceLeft(a: seq<real>, b: seq<real>, lo: nat, hi: nat)
    requires lo <= hi <= |a|
    ensures (a + b)[lo..hi] == a[lo..hi]
  {
  }

  lemma ConcatSliceRight(a: seq<real>, b: seq<real>)
    ensures (a + b)[|a|..|a| + |b|] == b
  {
  }

  lemma {:induction false} StackLength(blocks: seq<seq<real>>, size: nat)
    requires forall i :: 0 <= i < |blocks| ==> |blocks[i]| == size
    ensures |Stack(blocks)| == |blocks| * size
  {
    if blocks != [] {
      StackLength(blocks[..|blocks| - 1], size);
      assert |blocks| * size == (|blocks| - 1) * size + size;
    }
  }

  /** The copy step of loadFromSeriesInfo: writes a slice's values at `offset`,
      leaves the rest of the buffer alone, and folds the values written into the
      running minimum and maximum. */
  method CopySlice(vol: Volume, offset: nat, slicePixels: seq<real>)
    requires offset + |slicePixels| <= |vol.voxels|
    modifies vol`voxels, vol`vmin, vol`vmax
    ensures vol.voxels == old(vol.voxels)[..offset] + slicePixels + old(vol.voxels)[offset + |slicePixels|..]
    ensures vol.vmin <= old(vol.vmin) && old(vol.vmax) <= vol.vmax
    ensures forall v :: v in slicePixels ==> vol.vmin <= v <= vol.vmax
    ensures vol.vmin == old(vol.vmin) || vol.vmin in slicePixels
    ensures vol.vmax == old(vol.vmax) || vol.vmax in slicePixels
  {
    var k := 0;
    while k < |slicePixels|
      invariant 0 <= k <= |slicePixels| && |vol.voxels| == |old(vol.voxels)|
      invariant forall m :: 0 <= m < |vol.voxels| ==>
        vol.voxels[m] == if offset <= m < offset + k then slicePixels[m - offset] else old(vol.voxels)[m]
      invariant vol.vmin == old(vol.vmin) && vol.vmax == old(vol.vmax)
    {
      vol.voxels := vol.voxels[offset + k := slicePixels[k]];
      k := k + 1;
    }
    ghost var copied := vol.voxels;
    k := 0;
    while k < |slicePixels|
      invariant 0 <= k <= |slicePixels| && vol.voxels == copied
      invariant vol.vmin <= old(vol.vmin) && old(vol.vmax) <= vol.vmax
      invariant forall m :: 0 <= m < k ==> vol.vmin <= slicePixels[m] <= vol.vmax
      invariant vol.vmin == old(vol.vmin) || vol.vmin in slicePixels[..k]
      invariant vol.vmax == old(vol.vmax) || vol.vmax in slicePixels[..k]
    {
      var value := slicePixels[k];
      vol.vmin := if value < vol.vmin then value else vol.vmin;
      vol.vmax := if vol.vmax < value then value else vol.vmax;
      assert slicePixels[..k + 1] == slicePixels[..k] + [value];
      k := k + 1;
    }
    assert slicePixels[..k] == slicePixels;
  }

  /** The file-reading loop of loadFromSeriesInfo: the records of the files that extract. */
  method ExtractSlices(paths: seq<string>, reader: Reader) returns (slices: seq<SliceInfo>)
    ensures slices == ExtractAll(paths, reader)
  {
    slices := [];
    var f := 0;
    while f < |paths|
      invariant 0 <= f <= |paths|
      invariant slices == ExtractAll(paths[..f], reader)
    {
      var filePath := paths[f];
      assert paths[..f + 1][..f] == paths[..f];
      if filePath in reader.slices {
        slices := slices + [reader.slices[filePath].(filePath := filePath)];
      }
      f := f + 1;
    }
    assert paths[..f] == paths;
  }

  /** The buffer a series of loadable slices fills: their converted pixels, slice after slice. */
  function SeriesPixels(reader: Reader, ranked: seq<SliceInfo>): seq<real>
    requires reader.Coherent()
    requires forall k :: 0 <= k < |ranked| ==> reader.Loadable(ranked[k]) && reader.FromFile(ranked[k])
  {
    Stack(seq(|ranked|, k requires 0 <= k < |ranked| => PixelsOf(reader, ranked[k])))
  }

  /** The copy loop of loadFromSeriesInfo over the zero-filled buffer of a
      columns x rows x slices volume, one block of width*height values per
      slice: loads each slice in rank order and copies it into its block,
      stopping at the first slice that does not load. Success fills the buffer
      with the series' pixels, and vmin and vmax with their running minimum and
      maximum. */
  method AssemblePixels(vol: Volume, ranked: seq<SliceInfo>, reader: Reader) returns (failed: Option<nat>)
    requires reader.Coherent() && |ranked| > 0 && vol.Wellformed()
    requires forall k :: 0 <= k < |ranked| ==>
      reader.FromFile(ranked[k]) && ranked[k].rows == ranked[0].rows && ranked[k].columns == ranked[0].columns
    requires vol.width == ranked[0].columns && vol.height == ranked[0].rows && vol.depth == |ranked|
    requires vol.voxels == seq(vol.width * vol.height * vol.depth, _ => 0.0)
    requires vol.vmin == FloatMax && vol.vmax == -FloatMax
    modifies vol`voxels, vol`vmin, vol`vmax
    ensures vol.Wellformed()
    ensures failed.Some? ==>
      && failed.value < |ranked| && !reader.Loadable(ranked[failed.value])
      && forall k :: 0 <= k < failed.value ==> reader.Loadable(ranked[k])
    ensures failed.None? ==> Filled(vol.voxels, vol.vmin, vol.vmax, ranked, reader)
  {
    var n := |ranked|;
    var sliceSize := vol.width * vol.height;
    SliceSizes(ranked, sliceSize);
    BufferSize(vol.width, vol.height, n);
    ghost var total := |vol.voxels|;
    assert total == n * sliceSize;
    ghost var done: seq<seq<real>> := [];
    var i := 0;
    while i < n
      invariant 0 <= i <= n && |done| == i && Copied(reader, ranked, done)
      invariant |vol.voxels| == total && |Stack(done)| == i * sliceSize
      invariant PartlyFilled(vol.voxels, vol.vmin, vol.vmax, done)
    {
      var loaded;
      loaded, done := CopyNext(vol, ranked, reader, sliceSize, i, done);
      if !loaded {
        return Some(i);
      }
      i := i + 1;
    }
    AllCopied(vol.voxels, vol.vmin, vol.vmax, ranked, reader, done);
    return None;
  }

  /** One pass of the copy loop: loads slice i and, when it loads, copies its
      values into block i and folds them into the running range. */
  method CopyNext(vol: Volume, ranked: seq<SliceInfo>, reader: Reader, sliceSize: nat, i: nat, ghost done: seq<seq<real>>)
    returns (loaded: bool, ghost done': seq<seq<real>>)
    requires i < |ranked| && |done| == i && Copied(reader, ranked, done)
    requires reader.FromFile(ranked[i]) && ranked[i].rows * ranked[i].columns == sliceSize
    requires |vol.voxels| == |ranked| * sliceSize && |Stack(done)| == i * sliceSize
    requires PartlyFilled(vol.voxels, vol.vmin, vol.vmax, done)
    modifies vol`voxels, vol`vmin, vol`vmax
    ensures loaded <==> reader.Loadable(ranked[i])
    ensures loaded ==> done' == done + [PixelsOf(reader, ranked[i])] && Copied(reader, ranked, done')
    ensures loaded ==> |Stack(done')| == (i + 1) * sliceSize && PartlyFilled(vol.voxels, vol.vmin, vol.vmax, done')
    ensures |vol.voxels| == old(|vol.voxels|)
  {
    done' := done;
    var slicePixels;
    loaded, slicePixels := LoadSlice(reader, ranked[i]);
    if !loaded {
      return;
    }
    var volumeOffset := i * sliceSize;
    BlockFits(i, |ranked|, sliceSize);
    if volumeOffset + |slicePixels| <= |vol.voxels| {
      ghost var before, lo, hi := vol.voxels, vol.vmin, vol.vmax;
      CopySlice(vol, volumeOffset, slicePixels);
      FillStep(before, lo, hi, done, slicePixels, vol.voxels, vol.vmin, vol.vmax);
      CopiedStep(reader, ranked, done, slicePixels);
      done' := done + [slicePixels];
    }
  }

  /** loadPixelData on a slice and the image its reader decodes: the slice's
      converted pixels exactly when it loads. */
  method LoadSlice(reader: Reader, slice: SliceInfo) returns (loaded: bool, pixels: seq<real>)
    requires reader.Coherent() && reader.FromFile(slice)
    ensures loaded <==> reader.Loadable(slice)
    ensures loaded ==> pixels == PixelsOf(reader, slice)
  {
    loaded, pixels := LoadPixelData(slice, reader.ImageOf(slice));
  }

  /** Block i of n blocks of s values ends where block i + 1 starts, within the buffer. */
  lemma BlockFits(i: nat, n: nat, s: nat)
    requires i < n
    ensures (i + 1) * s == i * s + s && i * s + s <= n * s
  {
    MulMonotone(i + 1, n, s);
  }

  /** done holds the converted pixels of the first |done| slices, each of which loads. */
  ghost predicate Copied(reader: Reader, ranked: seq<SliceInfo>, done: seq<seq<real>>)
  {
    && reader.Coherent() && |done| <= |ranked|
    && forall k :: 0 <= k < |done| ==>
      reader.FromFile(ranked[k]) && reader.Loadable(ranked[k]) && done[k] == PixelsOf(reader, ranked[k])
  }

  lemma CopiedStep(reader: Reader, ranked: seq<SliceInfo>, done: seq<seq<real>>, block: seq<real>)
    requires Copied(reader, ranked, done) && |done| < |ranked|
    requires reader.FromFile(ranked[|done|]) && reader.Loadable(ranked[|done|])
    requires block == PixelsOf(reader, ranked[|done|])
    ensures Copied(reader, ranked, done + [block])
  {
  }


  /** The buffer holds the blocks copied so far followed by zeros, and the
      range is the running minimum and maximum of the values copied. */
  ghost predicate PartlyFilled(voxels: seq<real>, vmin: real, vmax: real, done: seq<seq<real>>)
  {
    && |Stack(done)| <= |voxels|
    && voxels == Stack(done) + seq(|voxels| - |Stack(done)|, _ => 0.0)
    && RunningRange(Stack(done), vmin, vmax)
  }

  /** vmin and vmax as the copy loop leaves them over `values`: seeded with the
      largest float and its negation, then lowered and raised by std::min and
      std::max, so each is its seed or one of the values, and bounds them all. */
  ghost predicate RunningRange(values: seq<real>, vmin: real, vmax: real)
  {
    && (forall v :: v in values ==> vmin <= v <= vmax)
    && vmin <= FloatMax && -FloatMax <= vmax
    && (vmin == FloatMax || vmin in values)
    && (vmax == -FloatMax || vmax in values)
  }

  /** The running range is determined by the values: two ranges that both
      satisfy it are the same range. */
  lemma RunningRangeUnique(values: seq<real>, vmin: real, vmax: real, vmin': real, vmax': real)
    requires RunningRange(values, vmin, vmax) && RunningRange(values, vmin', vmax')
    ensures vmin == vmin' && vmax == vmax'
  {
  }

  /** Over values a float can hold, the running range is attained: vmin is the
      smallest value and vmax the largest; over no values it keeps its seeds. */
  lemma RunningRangeAttained(values: seq<real>, vmin: real, vmax: real)
    requires RunningRange(values, vmin, vmax)
    requires forall v :: v in values ==> -FloatMax <= v <= FloatMax
    ensures values == [] ==> vmin == FloatMax && vmax == -FloatMax
    ensures values != [] ==> vmin in values && vmax in values
  {
    if values != [] {
      var v := values[0];
      assert v in values;
      if vmin == FloatMax {
        assert v == vmin;
      }
      if vmax == -FloatMax {
        assert v == vmax;
      }
    }
  }

  /** Copying the next block over the zero tail, with a range widened to cover it. */
  lemma FillStep(voxels: seq<real>, vmin: real, vmax: real, done: seq<seq<real>>, block: seq<real>,
                 voxels': seq<real>, vmin': real, vmax': real)
    requires PartlyFilled(voxels, vmin, vmax, done) && |Stack(done)| + |block| <= |voxels|
    requires voxels' == voxels[..|Stack(done)|] + block + voxels[|Stack(done)| + |block|..]
    requires vmin' <= vmin && vmax <= vmax' && forall v :: v in block ==> vmin' <= v <= vmax'
    requires (vmin' == vmin || vmin' in block) && (vmax' == vmax || vmax' in block)
    ensures PartlyFilled(voxels', vmin', vmax', done + [block])
    ensures |Stack(done + [block])| == |Stack(done)| + |block|
  {
    var m := |Stack(done)|;
    assert (done + [block])[..|done|] == done;
    assert Stack(done + [block]) == Stack(done) + block;
    assert voxels[..m] == Stack(done);
    assert voxels[m + |block|..] == seq(|voxels| - m - |block|, _ => 0.0);
    assert |voxels'| == |voxels|;
  }

  /** Every slice copied and the buffer filled to its end: the buffer holds
      the series' pixels, and the range is their running minimum and maximum. */
  lemma AllCopied(voxels: seq<real>, vmin: real, vmax: real, ranked: seq<SliceInfo>, reader: Reader, done: seq<seq<real>>)
    requires Copied(reader, ranked, done) && |done| == |ranked|
    requires PartlyFilled(voxels, vmin, vmax, done) && |Stack(done)| == |voxels|
    ensures Filled(voxels, vmin, vmax, ranked, reader)
  {
    assert done == seq(|ranked|, k requires 0 <= k < |ranked| => PixelsOf(reader, ranked[k]));
    assert voxels == Stack(done);
  }

  /** The volume a successful load yields from slices in their final order:
      columns x rows x slices, the slices' pixels laid out block by block, every
      voxel's minimum and maximum as the range, the first slice's pixel spacing, position,
      normalised frame and rescale pair, the estimated slice spacing and the
      series' descriptive attributes. */
  ghost predicate Assembled(vol: Volume, info: SeriesInfo, order: seq<SliceInfo>, reader: Reader, sqrt: real -> real)
    reads vol
  {
    && |order| > 0
    && (forall k :: 0 <= k < |order| ==> order[k].rows == order[0].rows && order[k].columns == order[0].columns)
    && Framed(vol, info, order[0], |order|, SliceSpacing(Positions(order)), sqrt)
    && Filled(vol.voxels, vol.vmin, vol.vmax, order, reader)
    && (vol.hasRescaleParams <==> order[0].hasRescale)
    && vol.rescaleIntercept == (if order[0].hasRescale then order[0].rescaleIntercept else 0.0)
    && vol.rescaleSlope == (if order[0].hasRescale then order[0].rescaleSlope else 1.0)
  }

  /** The frame of a volume of n slices whose first sorted slice is `first`:
      columns x rows x n, the first slice's pixel spacing with spacingZ between
      slices, its position as origin, its normalised row, column and slice
      directions, and the series' descriptive attributes. */
  ghost predicate Framed(vol: Volume, info: SeriesInfo, first: SliceInfo, n: nat, spacingZ: real, sqrt: real -> real)
    reads vol`width, vol`height, vol`depth, vol`spacing, vol`origin, vol`rowDir, vol`colDir, vol`sliceDir
    reads vol`modality, vol`patientID, vol`studyUID, vol`seriesUID, vol`studyDate, vol`seriesDescription
  {
    && vol.width == first.columns && vol.height == first.rows && vol.depth == n
    && vol.spacing == Vec3(first.pixelSpacing.col, first.pixelSpacing.row, spacingZ)
    && vol.origin == first.imagePosition
    && vol.rowDir == Normalize(first.imageOrientation.row, sqrt)
    && vol.colDir == Normalize(first.imageOrientation.col, sqrt)
    && vol.sliceDir == Normalize(SliceDirection(first.imageOrientation), sqrt)
    && vol.modality == info.modality && vol.patientID == info.patientID
    && vol.studyUID == info.studyUID && vol.seriesUID == info.seriesUID
    && vol.studyDate == info.studyDate && vol.seriesDescription == info.seriesDescription
  }

  /** The buffer holds the pixels of every slice of `order`, each of which loads,
      block by block, and the range is the voxels' running minimum and maximum. */
  ghost predicate Filled(voxels: seq<real>, vmin: real, vmax: real, order: seq<SliceInfo>, reader: Reader)
  {
    && reader.Coherent()
    && (forall k :: 0 <= k < |order| ==> reader.Loadable(order[k]) && reader.FromFile(order[k]))
    && voxels == SeriesPixels(reader, order)
    && RunningRange(voxels, vmin, vmax)
  }

  /** loadFromSeriesInfo. Rejects an invalid descriptor, an empty file list, a
      list none of whose files extract, and an inconsistent series; then sorts
      the slices and assembles the volume. Every failure yields the empty,
      invalid volume. `sorted` is the projected slices in ascending order and
      `order` the same slices with their ranks written. */
  method LoadFromSeriesInfo(info: SeriesInfo, reader: Reader, sqrt: real -> real)
    returns (vol: Volume, err: Option<LoadError>, ghost sorted: seq<SliceInfo>, ghost order: seq<SliceInfo>)
    requires reader.Coherent()
    ensures fresh(vol) && vol.Wellformed()
    ensures !info.IsValid() ==> err == Some(InvalidSeriesInfo)
    ensures info.IsValid() && info.filePaths == [] ==> err == Some(NoFiles)
    ensures info.IsValid() && info.filePaths != [] && ExtractAll(info.filePaths, reader) == [] ==> err == Some(NoValidSlices)
    ensures info.IsValid() && ExtractAll(info.filePaths, reader) != [] && !Consistent(ExtractAll(info.filePaths, reader))
      ==> err == Some(InconsistentSlices)
    ensures err != Some(SortFailed)
    ensures err.Some? ==> !vol.IsValid() && vol.voxels == [] && vol.DefaultAttributes()
    ensures err.None? || err.value.PixelLoadFailed? ==>
      && info.IsValid() && Consistent(ExtractAll(info.filePaths, reader))
      && multiset(sorted) == multiset(ProjectAll(ExtractAll(info.filePaths, reader),
           SliceNormal(ExtractAll(info.filePaths, reader)[0].imageOrientation, sqrt)))
      && SortedBy(sorted, ProjectedLe) && order == Ranked(sorted)
    ensures err.Some? && err.value.PixelLoadFailed? ==>
      && err.value.slice < |order| && !reader.Loadable(order[err.value.slice])
      && forall k :: 0 <= k < err.value.slice ==> reader.Loadable(order[k])
    ensures err.None? ==> Assembled(vol, info, order, reader, sqrt)
    ensures err == Some(InvalidSeriesInfo) ==> !info.IsValid()
    ensures err == Some(NoFiles) ==> info.IsValid() && info.filePaths == []
    ensures err == Some(NoValidSlices) ==>
      info.IsValid() && info.filePaths != [] && ExtractAll(info.filePaths, reader) == []
    ensures err == Some(InconsistentSlices) ==>
      info.IsValid() && ExtractAll(info.filePaths, reader) != [] && !Consistent(ExtractAll(info.filePaths, reader))
    ensures info.IsValid() && ExtractAll(info.filePaths, reader) != [] && Consistent(ExtractAll(info.filePaths, reader))
      && (forall k :: 0 <= k < |ExtractAll(info.filePaths, reader)| ==> reader.Loadable(ExtractAll(info.filePaths, reader)[k]))
      ==> err.None?
  {
    sorted, order := [], [];
    if !info.IsValid() {
      vol := new Volume.Empty();
      return vol, Some(InvalidSeriesInfo), sorted, order;
    }
    if |info.filePaths| == 0 {
      vol := new Volume.Empty();
      return vol, Some(NoFiles), sorted, order;
    }
    var slices := ExtractSlices(info.filePaths, reader);
    if |slices| == 0 {
      vol := new Volume.Empty();
      return vol, Some(NoValidSlices), sorted, order;
    }
    var consistent := ValidateSliceConsistency(slices);
    if !consistent {
      vol := new Volume.Empty();
      return vol, Some(InconsistentSlices), sorted, order;
    }

    var buffer := new SliceInfo[|slices|](k requires 0 <= k < |slices| => slices[k]);
    assert buffer[..] == slices;
    var sortedOk;
    sortedOk, sorted := SortSlices(buffer, sqrt);
    if !sortedOk {
      vol := new Volume.Empty();
      return vol, Some(SortFailed), sorted, order;
    }
    var ranked := buffer[..];
    order := ranked;
    SortedSlicesFromFiles(slices, sorted, SliceNormal(slices[0].imageOrientation, sqrt), reader);
    SortedSlicesLoadable(slices, sorted, SliceNormal(slices[0].imageOrientation, sqrt), reader);

    var failed;
    vol, failed := BuildVolume(info, ranked, reader, sqrt);
    err := if failed.Some? then Some(PixelLoadFailed(failed.value)) else None;
  }

  /** The assembly half of loadFromSeriesInfo, over slices already in their
      final order and all of the first slice's size: allocates the volume,
      fills it slice by slice and copies the rescale pair. A slice whose pixels
      do not load yields the empty, invalid volume. */
  method BuildVolume(info: SeriesInfo, ranked: seq<SliceInfo>, reader: Reader, sqrt: real -> real)
    returns (vol: Volume, failed: Option<nat>)
    requires reader.Coherent() && |ranked| > 0
    requires forall k :: 0 <= k < |ranked| ==>
      reader.FromFile(ranked[k]) && ranked[k].rows == ranked[0].rows && ranked[k].columns == ranked[0].columns
    ensures fresh(vol) && vol.Wellformed()
    ensures failed.Some? ==>
      && failed.value < |ranked| && !reader.Loadable(ranked[failed.value])
      && (forall k :: 0 <= k < failed.value ==> reader.Loadable(ranked[k]))
      && !vol.IsValid() && vol.voxels == [] && vol.DefaultAttributes()
    ensures failed.None? ==> Assembled(vol, info, ranked, reader, sqrt)
  {
    var first := ranked[0];
    var n := |ranked|;
    var spacingZ := CalculateSliceSpacing(ranked);
    vol := NewSeriesVolume(info, first, n, spacingZ, sqrt);
    failed := AssemblePixels(vol, ranked, reader);
    if failed.Some? {
      vol := new Volume.Empty();
      return;
    }
    CopyRescale(vol, first);
  }

  /** The first slice's rescale pair, when it has one, kept on the volume for reference. */
  method CopyRescale(vol: Volume, first: SliceInfo)
    requires !vol.hasRescaleParams && vol.rescaleIntercept == 0.0 && vol.rescaleSlope == 1.0
    modifies vol`rescaleIntercept, vol`rescaleSlope, vol`hasRescaleParams
    ensures vol.hasRescaleParams <==> first.hasRescale
    ensures vol.rescaleIntercept == (if first.hasRescale then first.rescaleIntercept else 0.0)
    ensures vol.rescaleSlope == (if first.hasRescale then first.rescaleSlope else 1.0)
  {
    if first.hasRescale {
      vol.rescaleIntercept := first.rescaleIntercept;
      vol.rescaleSlope := first.rescaleSlope;
      vol.hasRescaleParams := true;
    }
  }

  /** The volume loadFromSeriesInfo allocates before copying: columns x rows x
      n zeros, with the first sorted slice's pixel spacing, the estimated slice
      spacing, the first slice's position as origin, its normalised frame, the
      series' descriptive attributes and an empty value range. */
  method NewSeriesVolume(info: SeriesInfo, first: SliceInfo, n: nat, spacingZ: real, sqrt: real -> real) returns (vol: Volume)
    ensures fresh(vol) && vol.Wellformed()
    ensures vol.width == first.columns && vol.height == first.rows && vol.depth == n
    ensures vol.voxels == seq(first.columns * first.rows * n, _ => 0.0)
    ensures Framed(vol, info, first, n, spacingZ, sqrt)
    ensures !vol.hasRescaleParams && vol.rescaleIntercept == 0.0 && vol.rescaleSlope == 1.0
    ensures vol.vmin == FloatMax && vol.vmax == -FloatMax
  {
    vol := new Volume(first.columns, first.rows, n);
    PlaceSeries(vol, first, spacingZ, sqrt);
    CopyDescriptors(vol, info);
    vol.vmin := FloatMax;
    vol.vmax := -FloatMax;
  }

  /** The geometry of the first sorted slice carried over to the volume:
      spacing, origin and the normalised row, column and slice directions. */
  method PlaceSeries(vol: Volume, first: SliceInfo, spacingZ: real, sqrt: real -> real)
    modifies vol`spacing, vol`origin, vol`rowDir, vol`colDir, vol`sliceDir
    ensures vol.spacing == Vec3(first.pixelSpacing.col, first.pixelSpacing.row, spacingZ)
    ensures vol.origin == first.imagePosition
    ensures vol.rowDir == Normalize(first.imageOrientation.row, sqrt)
    ensures vol.colDir == Normalize(first.imageOrientation.col, sqrt)
    ensures vol.sliceDir == Normalize(SliceDirection(first.imageOrientation), sqrt)
  {
    vol.spacing := Vec3(first.pixelSpacing.col, first.pixelSpacing.row, spacingZ);
    vol.origin := first.imagePosition;
    var iop := first.imageOrientation;
    vol.rowDir := Normalize(iop.row, sqrt);
    vol.colDir := Normalize(iop.col, sqrt);
    vol.sliceDir := Normalize(SliceDirection(iop), sqrt);
  }

  /** The series' descriptive attributes carried over to the volume. */
  method CopyDescriptors(vol: Volume, info: SeriesInfo)
    modifies vol`modality, vol`patientID, vol`studyUID, vol`seriesUID, vol`studyDate, vol`seriesDescription
    ensures vol.modality == info.modality && vol.patientID == info.patientID
    ensures vol.studyUID == info.studyUID && vol.seriesUID == info.seriesUID
    ensures vol.studyDate == info.studyDate && vol.seriesDescription == info.seriesDescription
  {
    vol.modality := info.modality;
    vol.patientID := info.patientID;
    vol.studyUID := info.studyUID;
    vol.seriesUID := info.seriesUID;
    vol.studyDate := info.studyDate;
    vol.seriesDescription := info.seriesDescription;
  }

  /** Slices of the first slice's size all have its number of pixels. */
  lemma SliceSizes(ranked: seq<SliceInfo>, sliceSize: int)
    requires |ranked| > 0 && sliceSize == ranked[0].columns * ranked[0].rows
    requires forall k :: 0 <= k < |ranked| ==> ranked[k].rows == ranked[0].rows && ranked[k].columns == ranked[0].columns
    ensures forall k :: 0 <= k < |ranked| ==> ranked[k].rows * ranked[k].columns == sliceSize
  {
    forall k | 0 <= k < |ranked|
      ensures ranked[k].rows * ranked[k].columns == sliceSize
    {
      BlockArea(ranked[k].rows, ranked[k].columns, ranked[0].columns, ranked[0].rows);
    }
  }

  lemma BufferSize(w: nat, h: nat, n: nat)
    ensures w * h * n == n * (w * h)
  {
  }

  /** Whether a slice loads depends on its file alone, which projecting,
      sorting and ranking keep: when every extracted slice loads, so does every
      ranked one. */
  lemma SortedSlicesLoadable(slices: seq<SliceInfo>, sorted: seq<SliceInfo>, normal: Vec3, reader: Reader)
    requires multiset(sorted) == multiset(ProjectAll(slices, normal))
    ensures (forall k :: 0 <= k < |slices| ==> reader.Loadable(slices[k])) ==>
      forall j :: 0 <= j < |sorted| ==> reader.Loadable(Ranked(sorted)[j])
  {
    if forall k :: 0 <= k < |slices| ==> reader.Loadable(slices[k]) {
      forall j | 0 <= j < |sorted|
        ensures reader.Loadable(Ranked(sorted)[j])
      {
        assert sorted[j] in multiset(ProjectAll(slices, normal));
        var k :| 0 <= k < |slices| && ProjectAll(slices, normal)[k] == sorted[j];
        assert sorted[j].filePath == slices[k].filePath;
      }
    }
  }

  /** Sorting keeps every slice's own record: each sorted slice came from its
      file and has the size of the series' first slice. */
  lemma SortedSlicesFromFiles(slices: seq<SliceInfo>, sorted: seq<SliceInfo>, normal: Vec3, reader: Reader)
    requires Consistent(slices) && multiset(sorted) == multiset(ProjectAll(slices, normal))
    requires forall k :: 0 <= k < |slices| ==> reader.FromFile(slices[k])
    ensures forall j :: 0 <= j < |sorted| ==>
      reader.FromFile(sorted[j]) && sorted[j].rows == slices[0].rows && sorted[j].columns == slices[0].columns
  {
    forall j | 0 <= j < |sorted|
      ensures reader.FromFile(sorted[j]) && sorted[j].rows == slices[0].rows && sorted[j].columns == slices[0].columns
    {
      assert sorted[j] in multiset(ProjectAll(slices, normal));
      var k :| 0 <= k < |slices| && ProjectAll(slices, normal)[k] == sorted[j];
      ConsistentSameFormat(slices, k, 0);
    }
  }

  // ---------------------------------------------------------------------------
  // Properties of the spacing estimate

  /** Every recorded gap exceeds the tolerance, and there is at most one per
      consecutive pair. */
  lemma {:induction false} GapsAboveTolerance(p: seq<real>)
    ensures forall g :: g in Gaps(p) ==> g > Epsilon
    ensures |p| > 0 ==> |Gaps(p)| <= |p| - 1
  {
    if |p| >= 2 {
      GapsAboveTolerance(p[..|p| - 1]);
    }
  }

  /** There are no gaps exactly when no consecutive difference exceeds the tolerance. */
  lemma {:induction false} NoGapsIff(p: seq<real>)
    ensures |Gaps(p)| == 0 <==> forall i :: 1 <= i < |p| ==> p[i] - p[i - 1] <= Epsilon
  {
    if |p| >= 2 {
      var init := p[..|p| - 1];
      NoGapsIff(init);
      assert forall i :: 1 <= i < |init| ==> init[i] - init[i - 1] == p[i] - p[i - 1];
    }
  }

  /** The median of an ascending sequence lies between its ends. */
  lemma MedianBounds(s: seq<real>)
    requires |s| > 0 && SortedBy(s, RealLe)
    ensures s[0] <= Median(s) <= s[|s| - 1]
  {
    var mid := |s| / 2;
    assert RealLe(s[0], s[mid]) || mid == 0;
    assert RealLe(s[mid], s[|s| - 1]) || mid == |s| - 1;
    if |s| % 2 == 0 {
      assert RealLe(s[0], s[mid - 1]) || mid - 1 == 0;
      assert RealLe(s[mid - 1], s[|s| - 1]);
    }
  }

  /** With fewer than two slices, or no step above the tolerance, the spacing
      falls back to 1 mm. */
  lemma SpacingFallback(p: seq<real>)
    requires |p| < 2 || forall i :: 1 <= i < |p| ==> p[i] - p[i - 1] <= Epsilon
    ensures SliceSpacing(p) == 1.0
  {
    NoGapsIff(p);
  }

  /** Otherwise the spacing is the median gap, which lies between the smallest
      and largest gap and so above the tolerance: the 1 mm fallback after the
      median is never taken. */
  lemma SpacingIsMedianGap(p: seq<real>)
    requires exists i :: 1 <= i < |p| && p[i] - p[i - 1] > Epsilon
    ensures |Gaps(p)| > 0
    ensures SliceSpacing(p) == Median(SortReals(Gaps(p)))
    ensures SortReals(Gaps(p))[0] <= SliceSpacing(p) <= SortReals(Gaps(p))[|Gaps(p)| - 1]
    ensures SliceSpacing(p) > Epsilon
  {
    NoGapsIff(p);
    var s := SortReals(Gaps(p));
    MedianBounds(s);
    assert s[0] in multiset(Gaps(p)) by { assert s[0] in multiset(s); }
    assert s[0] in Gaps(p);
    GapsAboveTolerance(p);
    assert s[0] > Epsilon;
  }

  /** Positions a constant step d above the tolerance apart have spacing d. */
  lemma UniformSpacing(p: seq<real>, d: real)
    requires |p| >= 2 && d > Epsilon
    requires forall i :: 1 <= i < |p| ==> p[i] - p[i - 1] == d
    ensures SliceSpacing(p) == d
  {
    var c := seq(|p| - 1, _ => d);
    UniformGaps(p, d);
    ConstantSorted(c, d);
    SpacingOfSortedGaps(p, c);
    ConstantMedian(c, d);
  }

  lemma ConstantMedian(c: seq<real>, d: real)
    requires |c| > 0 && forall i :: 0 <= i < |c| ==> c[i] == d
    ensures Median(c) == d
  {
    var mid := |c| / 2;
    assert c[mid] == d;
    if |c| % 2 == 0 {
      assert c[mid - 1] == d;
    }
  }

  lemma ConstantSorted(c: seq<real>, d: real)
    requires forall i :: 0 <= i < |c| ==> c[i] == d
    ensures SortReals(c) == c
  {
    assert SortedBy(c, RealLe);
    SortedIsFixed(c);
  }

  lemma {:induction false} UniformGaps(p: seq<real>, d: real)
    requires |p| >= 1 && d > Epsilon
    requires forall i :: 1 <= i < |p| ==> p[i] - p[i - 1] == d
    ensures Gaps(p) == seq(|p| - 1, _ => d)
  {
    if |p| >= 2 {
      UniformGaps(p[..|p| - 1], d);
    }
  }

  /** One outlying step does not move the median: positions 0, 1, 2, 3, 10 have spacing 1. */
  lemma SpacingIgnoresOutlier()
    ensures SliceSpacing([0.0, 1.0, 2.0, 3.0, 10.0]) == 1.0
  {
    OutlierGaps([0.0, 1.0, 2.0, 3.0, 10.0]);
    SortedOutlierGaps([1.0, 1.0, 1.0, 7.0]);
    SpacingOfSortedGaps([0.0, 1.0, 2.0, 3.0, 10.0], [1.0, 1.0, 1.0, 7.0]);
    assert Median([1.0, 1.0, 1.0, 7.0]) == 1.0;
  }

  /** The spacing from gaps already in ascending order. */
  lemma SpacingOfSortedGaps(p: seq<real>, g: seq<real>)
    requires |p| >= 2 && |g| > 0 && Gaps(p) == g && SortReals(g) == g
    ensures SliceSpacing(p) == if Median(g) > Epsilon then Median(g) else 1.0
  {
  }

  lemma SortedOutlierGaps(g: seq<real>)
    requires g == [1.0, 1.0, 1.0, 7.0]
    ensures SortReals(g) == g
  {
    assert SortedBy(g, RealLe) by {
      forall i, j | 0 <= i < j < |g|
        ensures RealLe(g[i], g[j])
      {
      }
    }
    SortedIsFixed(g);
  }

  /** An ascending sequence is its own ascending arrangement. */
  lemma SortedIsFixed(g: seq<real>)
    requires SortedBy(g, RealLe)
    ensures SortReals(g) == g
  {
    SortedUnique(g, SortReals(g));
  }

  lemma OutlierGaps(p: seq<real>)
    requires p == [0.0, 1.0, 2.0, 3.0, 10.0]
    ensures Gaps(p) == [1.0, 1.0, 1.0, 7.0]
  {
    assert p[..1] == [0.0];
    assert Gaps(p[..2]) == [1.0] by { assert p[..2][..1] == p[..1]; }
    assert Gaps(p[..3]) == [1.0, 1.0] by { assert p[..3][..2] == p[..2]; }
    assert Gaps(p[..4]) == [1.0, 1.0, 1.0] by { assert p[..4][..3] == p[..3]; }
    assert p[..4] == p[..|p| - 1];
  }

  /** A second slice at the position of any slice adds no gap and leaves the spacing unchanged. */
  lemma DuplicateSliceIgnored(p: seq<real>, k: nat)
    requires k < |p|
    ensures Gaps(p[..k + 1] + [p[k]] + p[k + 1..]) == Gaps(p)
    ensures SliceSpacing(p[..k + 1] + [p[k]] + p[k + 1..]) == SliceSpacing(p)
  {
    var q := p[..k + 1] + [p[k]] + p[k + 1..];
    DuplicateGapAt(p, k, q);
    SameGapsSameSpacing(p, q);
  }

  /** Repeating position k: by induction on the positions after it. */
  lemma {:induction false} DuplicateGapAt(p: seq<real>, k: nat, q: seq<real>)
    requires k < |p| && q == p[..k + 1] + [p[k]] + p[k + 1..]
    ensures Gaps(q) == Gaps(p)
    decreases |p|
  {
    var n := |p|;
    if k == n - 1 {
      assert p[..k + 1] == p && p[k + 1..] == [];
      DuplicateGap(p, q);
    } else {
      var init := p[..n - 1];
      var q' := init[..k + 1] + [init[k]] + init[k + 1..];
      DuplicateGapAt(init, k, q');
      assert p[k + 1..] == init[k + 1..] + [p[n - 1]];
      assert q == q' + [p[n - 1]];
      assert q'[|q'| - 1] == p[n - 2];
      assert q[..|q| - 1] == q';
    }
  }

  lemma DuplicateGap(p: seq<real>, q: seq<real>)
    requires |p| >= 1 && q == p + [p[|p| - 1]]
    ensures Gaps(q) == Gaps(p)
  {
    GapsStep(q, |p|);
    assert q[..|p| + 1] == q && q[..|p|] == p;
  }

  /** Two position lists of at least one element with the same gaps have the same spacing. */
  lemma SameGapsSameSpacing(p: seq<real>, q: seq<real>)
    requires |p| >= 1 && |q| >= 1 && Gaps(p) == Gaps(q)
    ensures SliceSpacing(p) == SliceSpacing(q)
  {
    assert |p| < 2 ==> Gaps(p) == [];
    assert |q| < 2 ==> Gaps(q) == [];
  }

  // ---------------------------------------------------------------------------
  // Properties of the sequencer and the assembly

  lemma PositionsConcat(u: seq<SliceInfo>, v: seq<SliceInfo>)
    ensures Positions(u + v) == Positions(u) + Positions(v)
  {
  }

  /** Slices that are a permutation of each other have positions that are a permutation of each other. */
  lemma {:induction false} PositionsMultiset(a: seq<SliceInfo>, b: seq<SliceInfo>)
    requires multiset(a) == multiset(b)
    ensures multiset(Positions(a)) == multiset(Positions(b))
    decreases |a|
  {
    if a == [] {
      assert |b| == |multiset(b)| == 0;
    } else {
      assert a[0] in multiset(b);
      var j :| 0 <= j < |b| && b[j] == a[0];
      var rest := b[..j] + b[j + 1..];
      assert a[1..] == a[..0] + a[1..];
      RemoveAt(a, 0, a[1..]);
      RemoveAt(b, j, rest);
      assert multiset(a[1..]) == multiset(rest);
      PositionsMultiset(a[1..], rest);
    }
  }

  /** Taking out the slice at j takes its position out of the positions. */
  lemma RemoveAt(s: seq<SliceInfo>, j: nat, rest: seq<SliceInfo>)
    requires j < |s| && rest == s[..j] + s[j + 1..]
    ensures multiset(rest) == multiset(s) - multiset{s[j]}
    ensures multiset(Positions(s)) == multiset(Positions(rest)) + multiset{s[j].projectedPosition}
  {
    var pre, post := s[..j], s[j + 1..];
    assert s == pre + [s[j]] + post;
    assert multiset(s) == multiset(pre) + multiset{s[j]} + multiset(post);
    PositionsConcat(pre, [s[j]]);
    PositionsConcat(pre + [s[j]], post);
    PositionsConcat(pre, post);
    assert Positions([s[j]]) == [s[j].projectedPosition];
  }

  /** Whatever order the sort leaves equal projections in, the resulting
      positions are the ascending arrangement of the projected positions. So the
      slice spacing of a load does not depend on how ties were broken. */
  lemma SortedPositions(sorted: seq<SliceInfo>, projected: seq<SliceInfo>)
    requires SortedBy(sorted, ProjectedLe) && multiset(sorted) == multiset(projected)
    ensures Positions(sorted) == SortReals(Positions(projected))
    ensures Positions(Ranked(sorted)) == Positions(sorted)
  {
    PositionsMultiset(sorted, projected);
    assert SortedBy(Positions(sorted), RealLe) by {
      forall i, j | 0 <= i < j < |sorted|
        ensures RealLe(Positions(sorted)[i], Positions(sorted)[j])
      {
        assert ProjectedLe(sorted[i], sorted[j]);
      }
    }
    SortedUnique(Positions(sorted), SortReals(Positions(projected)));
  }

  /** Re-sorting slices already in ascending projection leaves the sequence of
      projections as it was. Slices with equal projections may still trade
      places: the sort is not stable. */
  lemma ResortKeepsPositions(s: seq<SliceInfo>, sorted: seq<SliceInfo>)
    requires SortedBy(s, ProjectedLe) && SortedBy(sorted, ProjectedLe) && multiset(sorted) == multiset(s)
    ensures Positions(sorted) == Positions(s)
  {
    SortedPositions(sorted, s);
    SortedPositions(s, s);
  }

  /** When the projections are strictly ascending, re-sorting changes nothing. */
  lemma ResortIsIdentity(s: seq<SliceInfo>, sorted: seq<SliceInfo>)
    requires forall i, j :: 0 <= i < j < |s| ==> s[i].projectedPosition < s[j].projectedPosition
    requires SortedBy(sorted, ProjectedLe) && multiset(sorted) == multiset(s)
    ensures sorted == s
  {
    assert SortedBy(s, ProjectedLe);
    ResortKeepsPositions(s, sorted);
    forall i | 0 <= i < |s|
      ensures sorted[i] == s[i]
    {
      assert sorted[i] in multiset(s);
      var j :| 0 <= j < |s| && s[j] == sorted[i];
      assert Positions(sorted)[i] == Positions(s)[i];
    }
  }

  /** Two slices that differ in their number of rows do not form a consistent
      series, so loading them fails before anything is sorted or copied. */
  lemma RowMismatchInconsistent(a: SliceInfo, b: SliceInfo)
    requires a.rows != b.rows
    ensures !Consistent([a, b])
  {
    assert [a, b][1] == b;
    assert !MatchesFirst(a, b);
  }

  /** In an assembled volume, voxel (x, y, z) is the converted pixel at row y,
      column x of the z-th slice in sorted order. */
  lemma AssembledVoxel(vol: Volume, info: SeriesInfo, order: seq<SliceInfo>, reader: Reader, sqrt: real -> real,
                       x: int, y: int, z: int)
    requires vol.Wellformed() && Assembled(vol, info, order, reader, sqrt) && vol.InBounds(x, y, z)
    ensures y * vol.width + x < order[z].rows * order[z].columns
    ensures vol.GetVoxel(x, y, z) == SampleAt(order[z], reader.images[order[z].filePath], y * vol.width + x)
  {
    SeriesVoxel(vol, order, reader, x, y, z);
  }

  /** The same, from the layout facts alone. */
  lemma SeriesVoxel(vol: Volume, order: seq<SliceInfo>, reader: Reader, x: int, y: int, z: int)
    requires vol.Wellformed() && reader.Coherent() && |order| == vol.depth && vol.InBounds(x, y, z)
    requires forall k :: 0 <= k < |order| ==>
      reader.Loadable(order[k]) && reader.FromFile(order[k])
      && order[k].rows == vol.height && order[k].columns == vol.width
    requires vol.voxels == SeriesPixels(reader, order)
    ensures y * vol.width + x < order[z].rows * order[z].columns
    ensures vol.GetVoxel(x, y, z) == SampleAt(order[z], reader.images[order[z].filePath], y * vol.width + x)
  {
    var blocks := seq(|order|, k requires 0 <= k < |order| => PixelsOf(reader, order[k]));
    forall k | 0 <= k < |blocks|
      ensures |blocks[k]| == vol.width * vol.height
    {
      assert |blocks[k]| == order[k].rows * order[k].columns;
      BlockArea(order[k].rows, order[k].columns, vol.width, vol.height);
    }
    assert vol.voxels == Stack(blocks);
    StackVoxel(vol, blocks, x, y, z);
  }

  lemma BlockArea(rows: int, columns: int, width: int, height: int)
    requires rows == height && columns == width
    ensures rows * columns == width * height
  {
  }

  /** A buffer of depth equal blocks of width*height values reads, at (x, y, z),
      value y*width + x of block z. */
  lemma StackVoxel(vol: Volume, blocks: seq<seq<real>>, x: int, y: int, z: int)
    requires vol.Wellformed() && vol.voxels == Stack(blocks) && |blocks| == vol.depth
    requires forall k :: 0 <= k < |blocks| ==> |blocks[k]| == vol.width * vol.height
    requires vol.InBounds(x, y, z)
    ensures 0 <= y * vol.width + x < |blocks[z]|
    ensures vol.GetVoxel(x, y, z) == blocks[z][y * vol.width + x]
  {
    var block := vol.width * vol.height;
    IndexInRange(vol.width, vol.height, vol.depth, x, y, z);
    StackBlock(blocks, block, z);
    assert vol.voxels[z * block..z * block + block] == blocks[z];
  }
}
