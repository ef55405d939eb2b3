/**
 * Model of the pixel-matrix extraction performed by `get_image` in
 * src/functions.py.
 *
 * Once the image file has been opened and decoded, `get_image` knows the
 * image size `(width, height)` and holds a pixel-access object that is
 * indexed by `(column, row)`. It pre-allocates one empty list per row,
 * then walks the image top to bottom, left to right, appending the first
 * three channels of pixel `(w, h)` to row `h`. The decoder is not part of
 * this model: the decoded image is an `Image` value given to the method.
 */
module Functions {

  /** The channel values of one decoded pixel (RGB, RGBA, ...). */
  type Channels = seq<int>

  /** Rows outer (top to bottom), columns inner (left to right). */
  type PixelMatrix = seq<seq<Channels>>

  /**
   * A decoded image: its size and its pixel-access object, which takes
   * the column first and the row second.
   */
  datatype Image = Image(width: nat, height: nat, pixels: (nat, nat) -> Channels)

  /**
   * The slice `p[:3]`: the first three channels of a pixel, which drops an
   * alpha channel; a pixel with fewer channels is kept whole.
   */
  function Rgb(p: Channels): (r: Channels)
    ensures r <= p
    ensures |r| == if |p| < 3 then |p| else 3
  {
    if |p| <= 3 then p else p[..3]
  }

  /** Row `h` of the result: the RGB of every pixel of image row `h`, left to right. */
  function Row(img: Image, h: nat): seq<Channels>
  {
    seq(img.width, w requires 0 <= w => Rgb(img.pixels(w, h)))
  }

  /** The matrix `get_image` returns: one row per image row, top to bottom. */
  function Extract(img: Image): PixelMatrix
  {
    seq(img.height, h requires 0 <= h => Row(img, h))
  }

  /** Every row of `m` has exactly `width` cells. */
  predicate Rectangular(m: PixelMatrix, width: nat)
  {
    forall h :: 0 <= h < |m| ==> |m[h]| == width
  }

  /**
   * The extraction loop. `pxData` starts as one empty list per row; the
   * outer loop runs over the rows, the inner loop over the columns, and
   * each step appends one cell to row `h` only.
   */
  method GetImage(img: Image) returns (pxData: PixelMatrix)
    ensures |pxData| == img.height
    ensures Rectangular(pxData, img.width)
    ensures forall h, w :: 0 <= h < img.height && 0 <= w < img.width ==>
              pxData[h][w] == Rgb(img.pixels(w, h))
    ensures img.height == 0 ==> pxData == []
    ensures img.width == 0 ==> forall h :: 0 <= h < |pxData| ==> pxData[h] == []
    ensures pxData == Extract(img)
  {
    pxData := seq(img.height, _ => []);
    var h := 0;
    while h < img.height
      invariant 0 <= h <= img.height
      invariant |pxData| == img.height
      invariant forall k :: 0 <= k < h ==> pxData[k] == Row(img, k)
      invariant forall k :: h <= k < img.height ==> pxData[k] == []
    {
      var w := 0;
      while w < img.width
        invariant 0 <= w <= img.width
        invariant |pxData| == img.height
        invariant forall k :: 0 <= k < h ==> pxData[k] == Row(img, k)
        invariant pxData[h] == Row(img, h)[..w]
        invariant forall k :: h < k < img.height ==> pxData[k] == []
      {
        pxData := pxData[h := pxData[h] + [Rgb(img.pixels(w, h))]];
        w := w + 1;
      }
      h := h + 1;
    }
  }

  /** The cells of a matrix in row-major order. */
  function Flatten(m: PixelMatrix): seq<Channels>
  {
    if m == [] then [] else m[0] + Flatten(m[1..])
  }

  /** A rectangular matrix of `|m|` rows flattens to `|m| * width` cells. */
  lemma {:induction false} FlattenLength(m: PixelMatrix, width: nat)
    requires Rectangular(m, width)
    ensures |Flatten(m)| == |m| * width
  {
    if m != [] {
      var rest := m[1..];
      assert Rectangular(rest, width);
      FlattenLength(rest, width);
      assert |m| * width == width + |rest| * width;
    }
  }

  /** In a rectangular matrix, cell `[h][w]` sits at position `h * width + w` of the flattening. */
  lemma {:induction false} FlattenAt(m: PixelMatrix, width: nat, h: nat, w: nat)
    requires Rectangular(m, width)
    requires h < |m| && w < width
    ensures h * width + w < |Flatten(m)|
    ensures Flatten(m)[h * width + w] == m[h][w]
  {
    var rest := m[1..];
    assert Rectangular(rest, width);
    assert Flatten(m) == m[0] + Flatten(rest);
    assert |m[0]| == width;
    if h == 0 {
      FlattenLength(rest, width);
    } else {
      FlattenAt(rest, width, h - 1, w);
      var i := h * width + w;
      var j := (h - 1) * width + w;
      assert i == width + j;
    }
  }

  /** The flattening of `m` is the rows before `h`, then row `h`, then the rows after it. */
  lemma {:induction false} FlattenSplit(m: PixelMatrix, h: nat)
    requires h < |m|
    ensures Flatten(m) == Flatten(m[..h]) + m[h] + Flatten(m[h + 1..])
  {
    if h == 0 {
      assert m[..0] == [];
      assert Flatten(m[..0]) == [];
    } else {
      var rest := m[1..];
      FlattenSplit(rest, h - 1);
      assert m[..h][0] == m[0];
      assert m[..h][1..] == rest[..h - 1];
      assert rest[h..] == m[h + 1..];
    }
  }

  /**
   * Rows come out top to bottom: the cells of the result, read row after
   * row, are those of the rows above `h`, then image row `h` left to
   * right, then the rows below it.
   */
  lemma RowsInOrder(img: Image, h: nat)
    requires h < img.height
    ensures Flatten(Extract(img)) ==
              Flatten(Extract(img)[..h]) + Row(img, h) + Flatten(Extract(img)[h + 1..])
  {
    FlattenSplit(Extract(img), h);
  }

  /**
   * Scan order: the cells of the result, read row after row, are the
   * pixels in the order the loops visit them, left to right within a row
   * and rows top to bottom; pixel `(w, h)` is the `h * width + w`-th visited.
   */
  lemma ScanOrder(img: Image, w: nat, h: nat)
    requires w < img.width && h < img.height
    ensures |Flatten(Extract(img))| == img.width * img.height
    ensures h * img.width + w < |Flatten(Extract(img))|
    ensures Flatten(Extract(img))[h * img.width + w] == Rgb(img.pixels(w, h))
  {
    var m := Extract(img);
    assert Rectangular(m, img.width);
    assert m[h][w] == Rgb(img.pixels(w, h));
    FlattenLength(m, img.width);
    assert |m| * img.width == img.width * img.height;
    FlattenAt(m, img.width, h, w);
  }

  /**
   * A matrix read back as an image with the same indexing convention:
   * pixel `(w, h)` is cell `[h][w]`; coordinates outside the matrix have
   * no channels.
   */
  function AsImage(m: PixelMatrix, width: nat): Image
  {
    Image(width, |m|, (w: nat, h: nat) => if h < |m| && w < |m[h]| then m[h][w] else [])
  }

  /**
   * Reading the result back as an image (column first, row second) and
   * extracting it again gives the same matrix: the cells are already RGB
   * and the transposition of indices is undone exactly.
   */
  lemma ExtractIdempotent(img: Image)
    ensures Extract(AsImage(Extract(img), img.width)) == Extract(img)
  {
    var m := Extract(img);
    var again := Extract(AsImage(m, img.width));
    assert |again| == |m|;
    forall h | 0 <= h < |m|
      ensures again[h] == m[h]
    {
      forall w | 0 <= w < img.width
        ensures again[h][w] == m[h][w]
      {
        var p := img.pixels(w, h);
        assert m[h][w] == Rgb(p);
        assert again[h][w] == Rgb(Rgb(p));
      }
    }
  }
}
