/**
  The K-means quantizers of `dominant-colors.cpp`. `cv::kmeans` is foreign code: its cluster
  index per pixel and its cluster centres come in as parameters, and the model covers what the
  program does with them, which is to write each pixel's centre back into the image and turn
  the floats back into bytes.
 */
module KMeans {
  import opened Numeric
  import opened Grids
  import opened EigenTree

  /** What `cv::kmeans` promises of its labels: one cluster index per pixel, each naming a centre. */
  predicate ValidIndices(indices: seq<int>, centers: seq<Vec3>)
  {
    forall i | 0 <= i < |indices| :: 0 <= indices[i] < |centers|
  }

  /** The write-back loop: row `i` of the data takes the three channels of centre `indices[i]`. */
  method WriteBack(data: seq<Vec3>, indices: seq<int>, centers: seq<Vec3>) returns (out: seq<Vec3>)
    requires |indices| == |data| && ValidIndices(indices, centers)
    ensures |out| == |data|
    ensures forall i | 0 <= i < |out| :: out[i] == centers[indices[i]]
  {
    out := data;
    var i := 0;
    while i < |data|
      invariant 0 <= i <= |data| && |out| == |data|
      invariant forall k | 0 <= k < i :: out[k] == centers[indices[k]]
    {
      var c := centers[indices[i]];
      out := out[i := Vec3(c.x, out[i].y, out[i].z)];
      out := out[i := Vec3(out[i].x, c.y, out[i].z)];
      out := out[i := Vec3(out[i].x, out[i].y, c.z)];
      i := i + 1;
    }
  }

  /** The quantized data uses only centres: every pixel is a centre, pixels of one cluster share
      it, and the colours of the result are among the centres. */
  lemma WriteBackPalette(out: seq<Vec3>, indices: seq<int>, centers: seq<Vec3>)
    requires |out| == |indices| && ValidIndices(indices, centers)
    requires forall i | 0 <= i < |out| :: out[i] == centers[indices[i]]
    ensures forall i | 0 <= i < |out| :: out[i] in centers
    ensures forall i, j | 0 <= i < |out| && 0 <= j < |out| && indices[i] == indices[j] :: out[i] == out[j]
    ensures (set i | 0 <= i < |out| :: out[i]) <= (set k | 0 <= k < |centers| :: centers[k])
  {
  }

  /** `cvRound`: the nearest integer, halves to the even neighbour (the default rounding mode of
      the processor, which OpenCV's conversion uses). */
  function RoundHalfEven(x: real): (r: int)
    ensures r as real - 0.5 <= x <= r as real + 0.5
  {
    var f := x.Floor;
    var d := x - f as real;
    if d < 0.5 then f
    else if d > 0.5 then f + 1
    else if f % 2 == 0 then f
    else f + 1
  }

  /** `saturate_cast<uchar>(float)`: round, then clamp into `[0, 255]`. */
  function SaturateByte(x: real): (r: byte)
  {
    ClampByte(RoundHalfEven(x))
  }

  /** A halfway value goes to the even neighbour, so rounding is not the C `round`. */
  lemma RoundHalfEvenTies(k: int)
    ensures RoundHalfEven(k as real + 0.5) == (if k % 2 == 0 then k else k + 1)
    ensures RoundHalfEven(k as real + 0.5) % 2 == 0
  {
    FloorOf(k as real + 0.5, k);
  }

  /** The conversion to bytes is the nearest byte: within one half of any value of `[0, 255]`,
      0 below the range and 255 above it. */
  lemma SaturateByteNearest(x: real)
    ensures 0.0 <= x <= 255.0 ==> -0.5 <= SaturateByte(x) as real - x <= 0.5
    ensures x < 0.0 ==> SaturateByte(x) == 0
    ensures x > 255.0 ==> SaturateByte(x) == 255
  {
  }

  /** Bytes survive the trip to float (`convertTo(CV_32F)`) and back. */
  lemma SaturateByteOfByte(b: byte)
    ensures SaturateByte(b as int as real) == b
  {
    FloorOf(b as int as real, b as int);
  }

  /** A pixel as the floats `cv::kmeans` reads. */
  function ToFloats(p: Pixel): Vec3
  {
    Vec3(p.c0 as int as real, p.c1 as int as real, p.c2 as int as real)
  }

  /** `convertTo(CV_8UC3)` of one row of three floats. */
  function ToPixel(v: Vec3): Pixel
  {
    Pixel(SaturateByte(v.x), SaturateByte(v.y), SaturateByte(v.z))
  }

  /** Converting to floats and back is the identity. */
  lemma PixelRoundTrip(p: Pixel)
    ensures ToPixel(ToFloats(p)) == p
  {
    SaturateByteOfByte(p.c0);
    SaturateByteOfByte(p.c1);
    SaturateByteOfByte(p.c2);
  }

  /** `DominantColorsKMeansRGB` after clustering: the data is the image as floats, each row is
      replaced by its centre, and the result goes back to bytes. The centres are returned as
      the dominant colours. */
  method DominantColorsKMeansRGB(source: seq<Pixel>, indices: seq<int>, centers: seq<Vec3>)
    returns (image: seq<Pixel>, dominant: seq<Vec3>)
    requires |indices| == |source| && ValidIndices(indices, centers)
    ensures |image| == |source| && dominant == centers
    ensures forall i | 0 <= i < |image| :: image[i] == ToPixel(centers[indices[i]])
  {
    var data := seq(|source|, i requires 0 <= i < |source| => ToFloats(source[i]));
    var out := WriteBack(data, indices, centers);
    image := seq(|out|, i requires 0 <= i < |out| => ToPixel(out[i]));
    dominant := centers;
  }

  /** When every centre is already a colour of bytes, the quantized image is made of exactly
      those colours: pixel `i` is centre `indices[i]` converted without loss. */
  lemma KMeansImageOfByteCenters(image: seq<Pixel>, indices: seq<int>, centers: seq<Pixel>)
    requires |indices| == |image|
    requires forall i | 0 <= i < |indices| :: 0 <= indices[i] < |centers|
    requires forall i | 0 <= i < |image| :: image[i] == ToPixel(ToFloats(centers[indices[i]]))
    ensures forall i | 0 <= i < |image| :: image[i] == centers[indices[i]]
  {
    forall i | 0 <= i < |image| ensures image[i] == centers[indices[i]] {
      PixelRoundTrip(centers[indices[i]]);
    }
  }

  /** `DominantColorsKMeansCIELAB` up to the conversion back to RGB: the CIELab rows are
      replaced by their centres. The conversions between RGB and CIELab are not part of this
      model. */
  method DominantColorsKMeansCIELAB(lab: seq<Vec3>, indices: seq<int>, centers: seq<Vec3>)
    returns (quantized: seq<Vec3>, dominant: seq<Vec3>)
    requires |indices| == |lab| && ValidIndices(indices, centers)
    ensures |quantized| == |lab| && dominant == centers
    ensures forall i | 0 <= i < |quantized| :: quantized[i] == centers[indices[i]]
  {
    quantized := WriteBack(lab, indices, centers);
    dominant := centers;
  }
}
