/** Single-channel 8-bit images, the data model shared by the image-processing modules. */
module Images {

  /** One 8-bit pixel value (uchar). */
  type Byte = x: int | 0 <= x < 256

  /** A rows x cols grid of pixels, stored row by row. */
  datatype Image = Image(rows: nat, cols: nat, pixels: seq<seq<Byte>>)
  {
    predicate Valid()
    {
      |pixels| == rows && forall r :: 0 <= r < rows ==> |pixels[r]| == cols
    }

    predicate IsEmpty()
    {
      rows == 0 || cols == 0
    }
  }

  /** Every pixel of `img` is 0 or 255. */
  predicate IsBinary(img: Image)
    requires img.Valid()
  {
    forall r, c :: 0 <= r < img.rows && 0 <= c < img.cols ==>
      img.pixels[r][c] == 0 || img.pixels[r][c] == 255
  }

  /** The pixels in row-major order, as Mat::reshape(1, 1) lays them out. */
  function Flatten<T>(grid: seq<seq<T>>): seq<T>
  {
    if grid == [] then [] else Flatten(grid[..|grid| - 1]) + grid[|grid| - 1]
  }

  lemma {:induction false} FlattenLength<T>(grid: seq<seq<T>>, cols: nat)
    requires forall r :: 0 <= r < |grid| ==> |grid[r]| == cols
    ensures |Flatten(grid)| == |grid| * cols
  {
    if grid != [] {
      var init := grid[..|grid| - 1];
      assert forall r :: 0 <= r < |init| ==> init[r] == grid[r];
      FlattenLength(init, cols);
      assert |grid| * cols == |init| * cols + cols;
    }
  }

  /** Every flattened pixel is a pixel of some row. */
  lemma {:induction false} FlattenMembers<T>(grid: seq<seq<T>>, p: T)
    requires p in Flatten(grid)
    ensures exists r :: 0 <= r < |grid| && p in grid[r]
  {
    var init := grid[..|grid| - 1];
    if p in Flatten(init) {
      FlattenMembers(init, p);
      var r :| 0 <= r < |init| && p in init[r];
      assert grid[r] == init[r];
    } else {
      assert p in grid[|grid| - 1];
    }
  }

  /**
   * cv::threshold with THRESH_BINARY and maxval 255 on an 8-bit image: a
   * pixel becomes 255 when it is above `t`, otherwise 0. (For 8-bit input the
   * threshold is floored; on integer pixels that is the same test.)
   */
  function Threshold(img: Image, t: int): (out: Image)
    requires img.Valid()
    ensures out.Valid() && out.rows == img.rows && out.cols == img.cols
    ensures forall r, c :: 0 <= r < img.rows && 0 <= c < img.cols ==>
              out.pixels[r][c] == if img.pixels[r][c] > t then 255 else 0
  {
    Image(img.rows, img.cols,
      seq(img.rows, r requires 0 <= r < img.rows =>
        seq(img.cols, c requires 0 <= c < img.cols =>
          if img.pixels[r][c] > t then 255 else 0)))
  }

  /** A thresholded image is binary, and thresholding a binary image again at any t in [0, 254] changes nothing. */
  lemma ThresholdBinary(img: Image, t: int)
    requires img.Valid()
    ensures IsBinary(Threshold(img, t))
    ensures IsBinary(img) && 0 <= t < 255 ==> Threshold(img, t) == img
  {
    if IsBinary(img) && 0 <= t < 255 {
      var out := Threshold(img, t);
      forall r | 0 <= r < img.rows ensures out.pixels[r] == img.pixels[r] {
        assert forall c :: 0 <= c < img.cols ==> out.pixels[r][c] == img.pixels[r][c];
      }
    }
  }
}
