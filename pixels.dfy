/// The sample conversion of loadPixelData: raw samples of the Image Pixel
/// Module (DICOM PS3.3 section C.7.6.3), 8 or 16 bits allocated, unsigned or
/// two's-complement signed, widened and passed through the Modality LUT
/// rescale (PS3.3 section C.11.1), value' = intercept + slope * value.
/// The source reinterprets the buffer in host byte order; the model decodes
/// it little-endian, the order of the platforms the program targets.
module PixelData {
  import opened Options
  import opened SeriesRecords

  newtype byte = x: int | 0 <= x < 256

  /** What the image reader yields for one file: its pixel format and raw buffer. */
  datatype DecodedImage = DecodedImage(bitsAllocated: int, pixelRepresentation: int, buffer: seq<byte>)
  {
    predicate Supported() { bitsAllocated == 8 || bitsAllocated == 16 }
    function SampleSize(): nat { if bitsAllocated == 16 then 2 else 1 }
  }

  /** Smallest and largest value of the sample type a format selects. */
  function SampleMin(bitsAllocated: int, pixelRepresentation: int): int
  {
    if pixelRepresentation == 0 then 0 else if bitsAllocated == 16 then -32768 else -128
  }

  function SampleMax(bitsAllocated: int, pixelRepresentation: int): int
  {
    if bitsAllocated == 16 then (if pixelRepresentation == 0 then 65535 else 32767)
    else (if pixelRepresentation == 0 then 255 else 127)
  }

  /** The i-th sample of the buffer, read as uint8, int8, uint16 or int16. */
  function RawSample(image: DecodedImage, i: nat): (v: int)
    requires image.Supported() && (i + 1) * image.SampleSize() <= |image.buffer|
    ensures SampleMin(image.bitsAllocated, image.pixelRepresentation) <= v
    ensures v <= SampleMax(image.bitsAllocated, image.pixelRepresentation)
  {
    var b := image.buffer;
    if image.bitsAllocated == 16 then
      var u := b[2 * i] as int + 256 * b[2 * i + 1] as int;
      if image.pixelRepresentation == 0 then u else if u >= 32768 then u - 65536 else u
    else
      var u := b[i] as int;
      if image.pixelRepresentation == 0 then u else if u >= 128 then u - 256 else u
  }

  /** The bytes that store sample v in the given format (little-endian, two's complement). */
  function EncodeSample(bitsAllocated: int, pixelRepresentation: int, v: int): (bytes: seq<byte>)
    requires bitsAllocated == 8 || bitsAllocated == 16
    requires SampleMin(bitsAllocated, pixelRepresentation) <= v <= SampleMax(bitsAllocated, pixelRepresentation)
    ensures |bytes| == DecodedImage(bitsAllocated, pixelRepresentation, []).SampleSize()
  {
    var u := if v < 0 then (if bitsAllocated == 16 then v + 65536 else v + 256) else v;
    if bitsAllocated == 16 then [(u % 256) as byte, (u / 256) as byte] else [u as byte]
  }

  /** Decoding the encoding of an in-range value gives the value back. */
  lemma DecodeEncode(bitsAllocated: int, pixelRepresentation: int, v: int)
    requires bitsAllocated == 8 || bitsAllocated == 16
    requires SampleMin(bitsAllocated, pixelRepresentation) <= v <= SampleMax(bitsAllocated, pixelRepresentation)
    ensures RawSample(DecodedImage(bitsAllocated, pixelRepresentation, EncodeSample(bitsAllocated, pixelRepresentation, v)), 0) == v
  {
  }

  /** Encoding a decoded sample gives back the bytes it was read from. */
  lemma EncodeDecode(image: DecodedImage, i: nat)
    requires image.Supported() && (i + 1) * image.SampleSize() <= |image.buffer|
    ensures EncodeSample(image.bitsAllocated, image.pixelRepresentation, RawSample(image, i))
         == image.buffer[i * image.SampleSize()..(i + 1) * image.SampleSize()]
  {
  }

  /** Rescale of one raw sample: intercept + slope * raw when the slice carries
      a rescale pair, the raw value otherwise. */
  function Rescale(slice: SliceInfo, raw: int): (v: real)
    ensures !slice.hasRescale ==> v == raw as real
    ensures slice.hasRescale && slice.rescaleSlope == 1.0 ==> v == slice.rescaleIntercept + raw as real
  {
    if slice.hasRescale then slice.rescaleIntercept + slice.rescaleSlope * raw as real else raw as real
  }

  /** The buffer holds at least rows*columns samples of the image's format;
      the source reads that many without checking. */
  predicate BufferCovers(slice: SliceInfo, image: DecodedImage)
  {
    image.Supported() ==> slice.rows * slice.columns * image.SampleSize() <= |image.buffer|
  }

  /** The rows*columns values loadPixelData produces for a slice and its image. */
  function DecodedPixels(slice: SliceInfo, image: DecodedImage): (pixels: seq<real>)
    requires image.Supported() && BufferCovers(slice, image)
    ensures |pixels| == slice.rows * slice.columns
  {
    var n := slice.rows * slice.columns;
    seq(n, i requires 0 <= i < n => SampleAt(slice, image, i))
  }

  /** The i-th converted value: the rescaled i-th raw sample. */
  function SampleAt(slice: SliceInfo, image: DecodedImage, i: nat): (v: real)
    requires image.Supported() && BufferCovers(slice, image) && i < slice.rows * slice.columns
    ensures (i + 1) * image.SampleSize() <= |image.buffer| && v == Rescale(slice, RawSample(image, i))
  {
    SampleFits(slice, image, i);
    Rescale(slice, RawSample(image, i))
  }

  lemma SampleFits(slice: SliceInfo, image: DecodedImage, i: nat)
    requires image.Supported() && BufferCovers(slice, image) && i < slice.rows * slice.columns
    ensures (i + 1) * image.SampleSize() <= |image.buffer|
  {
    var n := slice.rows * slice.columns;
    if image.SampleSize() == 2 {
      assert (i + 1) * 2 <= n * 2;
    }
  }

  /** loadPixelData: fails when the file cannot be re-read or the sample width is
      neither 8 nor 16 bits; otherwise yields rows*columns values, each the raw
      sample of the image's format, rescaled when the slice has a rescale pair.
      The output is sized before the format is examined, so an unsupported
      format leaves rows*columns zeros behind. */
  method LoadPixelData(slice: SliceInfo, image: Option<DecodedImage>) returns (ok: bool, pixelData: seq<real>)
    requires image.Some? ==> BufferCovers(slice, image.value)
    ensures ok <==> image.Some? && image.value.Supported()
    ensures image.Some? ==> |pixelData| == slice.rows * slice.columns
    ensures ok ==> forall i :: 0 <= i < |pixelData| ==> pixelData[i] == SampleAt(slice, image.value, i)
    ensures ok ==> pixelData == DecodedPixels(slice, image.value)
  {
    if image.None? {
      return false, [];
    }
    var img := image.value;
    var numPixels := slice.rows * slice.columns;
    pixelData := seq(numPixels, _ => 0.0);
    if img.bitsAllocated == 16 || img.bitsAllocated == 8 {
      var i := 0;
      while i < numPixels
        invariant 0 <= i <= numPixels && |pixelData| == numPixels
        invariant forall k :: 0 <= k < i ==> pixelData[k] == SampleAt(slice, img, k)
      {
        SampleFits(slice, img, i);
        var value := RawSample(img, i) as real;
        if slice.hasRescale {
          value := slice.rescaleIntercept + slice.rescaleSlope * value;
        }
        assert value == SampleAt(slice, img, i);
        pixelData := pixelData[i := value];
        i := i + 1;
      }
      ok := true;
    } else {
      ok := false;
    }
  }

  /** An unsigned 16-bit sample of 100 with intercept -1024 and slope 1 becomes -924. */
  lemma RescaleExample(slice: SliceInfo)
    requires slice.hasRescale && slice.rescaleIntercept == -1024.0 && slice.rescaleSlope == 1.0
    ensures RawSample(DecodedImage(16, 0, [100, 0]), 0) == 100
    ensures Rescale(slice, RawSample(DecodedImage(16, 0, [100, 0]), 0)) == -924.0
  {
  }
}
