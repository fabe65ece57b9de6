/** Image preprocessing before OCR (convert_pdf_to_images.py, preprocess_image):
    grey conversion and a 5x5 Gaussian blur, both library numerics given here
    as one abstract step, then a fixed global binary threshold; if any step
    raises, the original image goes on unprocessed. */
module Binarize {

  import opened Wrappers

  /** A single-channel image, row by row. */
  type Grid = seq<seq<int>>

  /** One pixel of a decoded image: its channel values. */
  type Pixel = seq<int>

  /** A decoded page or image, row by row. */
  type Raster = seq<seq<Pixel>>

  /** What preprocessing hands to the OCR engine. */
  datatype Processed = Binarized(grid: Grid) | Unprocessed(image: Raster)

  const Cutoff: int := 150
  const White: int := 255
  const Black: int := 0

  /** Two images have the same number of rows and the same row lengths. */
  predicate SameShape<A, B>(a: seq<seq<A>>, b: seq<seq<B>>) {
    |a| == |b| && forall i :: 0 <= i < |a| ==> |a[i]| == |b[i]|
  }

  predicate IsBinary(g: Grid) {
    forall i, j :: 0 <= i < |g| && 0 <= j < |g[i]| ==> g[i][j] == White || g[i][j] == Black
  }

  /** The binary threshold rule applied to one pixel value. */
  function Level(v: int): int {
    if v > Cutoff then White else Black
  }

  function ThresholdRow(row: seq<int>): (r: seq<int>)
    ensures |r| == |row|
    ensures forall j :: 0 <= j < |row| ==> (r[j] == White <==> row[j] > Cutoff)
    ensures forall j :: 0 <= j < |row| ==> (r[j] == Black <==> row[j] <= Cutoff)
  {
    if row == [] then [] else ThresholdRow(row[..|row| - 1]) + [Level(row[|row| - 1])]
  }

  /** The global binary threshold at 150 with levels 0 and 255: the output has
      the input's shape, and a pixel is white exactly when its input value
      exceeds 150 and black otherwise. */
  function Threshold(g: Grid): (r: Grid)
    ensures SameShape(r, g)
    ensures forall i, j :: 0 <= i < |g| && 0 <= j < |g[i]| ==> (r[i][j] == White <==> g[i][j] > Cutoff)
    ensures forall i, j :: 0 <= i < |g| && 0 <= j < |g[i]| ==> (r[i][j] == Black <==> g[i][j] <= Cutoff)
  {
    if g == [] then [] else Threshold(g[..|g| - 1]) + [ThresholdRow(g[|g| - 1])]
  }

  /** Every thresholded pixel is 0 or 255. */
  lemma ThresholdIsBinary(g: Grid)
    ensures IsBinary(Threshold(g))
  {
    var r := Threshold(g);
    forall i, j | 0 <= i < |r| && 0 <= j < |r[i]|
      ensures r[i][j] == White || r[i][j] == Black
    {
      assert g[i][j] > Cutoff || g[i][j] <= Cutoff;
    }
  }

  /** Thresholding a binarized image changes nothing, so a second pass is
      harmless. */
  lemma ThresholdIdempotent(g: Grid)
    ensures Threshold(Threshold(g)) == Threshold(g)
  {
    var r := Threshold(g);
    var rr := Threshold(r);
    assert |rr| == |r|;
    forall i | 0 <= i < |r|
      ensures rr[i] == r[i]
    {
      assert |rr[i]| == |r[i]|;
      forall j | 0 <= j < |r[i]|
        ensures rr[i][j] == r[i][j]
      {
        if g[i][j] > Cutoff {
          assert r[i][j] == White;
        } else {
          assert r[i][j] == Black;
        }
      }
    }
  }

  /** `preprocess_image`: `smooth` stands for the grey conversion and blur,
      `None` when either raises (a grey-scale input makes the colour
      conversion raise, for one). On success the result is the thresholded
      smoothed image, binary and of the smoothed image's shape; on failure it
      is the input image itself. */
  function Preprocess(img: Raster, smooth: Raster -> Option<Grid>): (r: Processed)
    ensures smooth(img).None? <==> r == Unprocessed(img)
    ensures r.Binarized? ==> IsBinary(r.grid) && SameShape(r.grid, smooth(img).value)
    ensures smooth(img).Some? ==> r == Binarized(Threshold(smooth(img).value))
  {
    match smooth(img)
    case None => Unprocessed(img)
    case Some(g) =>
      ThresholdIsBinary(g);
      Binarized(Threshold(g))
  }

  /** Preprocessing never changes the image's dimensions, provided the
      smoothing step keeps them (as the grey conversion and blur do). */
  lemma PreprocessKeepsShape(img: Raster, smooth: Raster -> Option<Grid>)
    requires smooth(img).Some? ==> SameShape(smooth(img).value, img)
    ensures match Preprocess(img, smooth)
            case Binarized(g) => SameShape(g, img)
            case Unprocessed(i) => i == img
  {
  }
}
