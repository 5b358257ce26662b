/** The carrier as the codec sees it: an 8-bit image grid loaded by the image
    reader, its row-major flattening and the reshape back, and the values the
    image and audio readers hand to the codec. */
module NdArray {

  /** One 8-bit unsigned sample (a uint8 channel value). */
  type Byte = x: int | 0 <= x < 256

  /** An image as the reader loads it: rows of pixels, each pixel a vector of
      channel samples (height x width x channels). */
  type Grid = seq<seq<seq<Byte>>>

  datatype Shape = Shape(height: nat, width: nat, channels: nat)

  /** What the image reader returns: nothing for a missing or unreadable file.
      With its default flag the reader always converts to three channels, so
      a loaded grid has shape (height, width, 3); the codec itself works for
      any channel count. */
  datatype ImageRead = Unreadable | Loaded(pixels: Grid)

  /** What the WAV reader returns: only the frame count is used by the codec. */
  datatype AudioRead = AudioUnreadable | Wave(frames: nat)

  function Size(sh: Shape): nat
  {
    sh.height * (sh.width * sh.channels)
  }

  predicate HasShape(g: Grid, sh: Shape)
  {
    |g| == sh.height &&
    (forall r :: 0 <= r < |g| ==> |g[r]| == sh.width) &&
    (forall r, c :: 0 <= r < |g| && 0 <= c < |g[r]| ==> |g[r][c]| == sh.channels)
  }

  /** The shape an array of this grid would report. */
  function ShapeOf(g: Grid): Shape
  {
    if g == [] then Shape(0, 0, 0)
    else if g[0] == [] then Shape(|g|, 0, 0)
    else Shape(|g|, |g[0]|, |g[0][0]|)
  }

  /** Every row has the same width and every pixel the same channel count, as
      in any n-dimensional array. */
  predicate Rectangular(g: Grid)
  {
    HasShape(g, ShapeOf(g))
  }

  predicate WellFormed(image: ImageRead)
  {
    image.Loaded? ==> Rectangular(image.pixels)
  }

  function FlattenRow(row: seq<seq<Byte>>): seq<Byte>
  {
    if row == [] then [] else row[0] + FlattenRow(row[1..])
  }

  /** Row-major flattening with the channel index varying fastest. */
  function Flatten(g: Grid): seq<Byte>
  {
    if g == [] then [] else FlattenRow(g[0]) + Flatten(g[1..])
  }

  function ReshapeRow(s: seq<Byte>, width: nat, channels: nat): (row: seq<seq<Byte>>)
    requires |s| == width * channels
    ensures |row| == width
    ensures forall c :: 0 <= c < width ==> |row[c]| == channels
  {
    if width == 0 then []
    else
      assert |s[channels..]| == (width - 1) * channels;
      [s[..channels]] + ReshapeRow(s[channels..], width - 1, channels)
  }

  /** The inverse of Flatten: cut a flat sample sequence back into a grid of
      the given shape. */
  function Reshape(s: seq<Byte>, sh: Shape): (g: Grid)
    requires |s| == Size(sh)
    ensures HasShape(g, sh)
    decreases sh.height
  {
    if sh.height == 0 then []
    else
      var rowLen := sh.width * sh.channels;
      assert |s[rowLen..]| == Size(Shape(sh.height - 1, sh.width, sh.channels));
      [ReshapeRow(s[..rowLen], sh.width, sh.channels)]
        + Reshape(s[rowLen..], Shape(sh.height - 1, sh.width, sh.channels))
  }

  lemma PeelRow(h: nat, k: nat)
    requires h >= 1
    ensures h * k == k + (h - 1) * k
  {
  }

  lemma PeelIndex(r: nat, w: nat, c: nat, k: nat)
    requires r >= 1
    ensures (r * w + c) * k == w * k + ((r - 1) * w + c) * k
  {
    calc {
      (r * w + c) * k;
      ((r - 1) * w + w + c) * k;
      w * k + ((r - 1) * w + c) * k;
    }
  }

  lemma {:induction false} FlattenRowLength(row: seq<seq<Byte>>, channels: nat)
    requires forall c :: 0 <= c < |row| ==> |row[c]| == channels
    ensures |FlattenRow(row)| == |row| * channels
    decreases |row|
  {
    if row != [] {
      FlattenRowLength(row[1..], channels);
    }
  }

  /** A grid of shape (h, w, c) flattens to exactly h*w*c samples. */
  lemma {:induction false} FlattenLength(g: Grid, sh: Shape)
    requires HasShape(g, sh)
    ensures |Flatten(g)| == Size(sh)
    decreases |g|
  {
    if g != [] {
      FlattenRowLength(g[0], sh.channels);
      FlattenLength(g[1..], Shape(sh.height - 1, sh.width, sh.channels));
      PeelRow(sh.height, sh.width * sh.channels);
    }
  }

  lemma {:induction false} FlattenReshapeRow(s: seq<Byte>, width: nat, channels: nat)
    requires |s| == width * channels
    ensures FlattenRow(ReshapeRow(s, width, channels)) == s
    decreases width
  {
    if width != 0 {
      assert |s[channels..]| == (width - 1) * channels;
      FlattenReshapeRow(s[channels..], width - 1, channels);
      assert s == s[..channels] + s[channels..];
    }
  }

  /** Reshaping then flattening gives back the same samples. */
  lemma {:induction false} FlattenReshape(s: seq<Byte>, sh: Shape)
    requires |s| == Size(sh)
    ensures Flatten(Reshape(s, sh)) == s
    decreases sh.height
  {
    if sh.height != 0 {
      var rowLen := sh.width * sh.channels;
      var rest := Shape(sh.height - 1, sh.width, sh.channels);
      assert |s[rowLen..]| == Size(rest);
      FlattenReshapeRow(s[..rowLen], sh.width, sh.channels);
      FlattenReshape(s[rowLen..], rest);
      assert s == s[..rowLen] + s[rowLen..];
    }
  }

  lemma {:induction false} ReshapeFlattenRow(row: seq<seq<Byte>>, channels: nat)
    requires forall c :: 0 <= c < |row| ==> |row[c]| == channels
    ensures |FlattenRow(row)| == |row| * channels
    ensures ReshapeRow(FlattenRow(row), |row|, channels) == row
    decreases |row|
  {
    FlattenRowLength(row, channels);
    if row != [] {
      ReshapeFlattenRow(row[1..], channels);
      assert FlattenRow(row)[..channels] == row[0];
      assert FlattenRow(row)[channels..] == FlattenRow(row[1..]);
    }
  }

  lemma {:induction false} ReshapeFlattenShape(g: Grid, sh: Shape)
    requires HasShape(g, sh)
    ensures |Flatten(g)| == Size(sh)
    ensures Reshape(Flatten(g), sh) == g
    decreases |g|
  {
    FlattenLength(g, sh);
    if g != [] {
      var rest := Shape(sh.height - 1, sh.width, sh.channels);
      var rowLen := sh.width * sh.channels;
      ReshapeFlattenRow(g[0], sh.channels);
      ReshapeFlattenShape(g[1..], rest);
      assert Flatten(g)[..rowLen] == FlattenRow(g[0]);
      assert Flatten(g)[rowLen..] == Flatten(g[1..]);
    }
  }

  /** Flattening then reshaping to the original shape gives back the grid. */
  lemma ReshapeFlatten(g: Grid)
    requires Rectangular(g)
    ensures |Flatten(g)| == Size(ShapeOf(g))
    ensures Reshape(Flatten(g), ShapeOf(g)) == g
  {
    ReshapeFlattenShape(g, ShapeOf(g));
  }

  lemma {:induction false} FlattenRowAt(row: seq<seq<Byte>>, channels: nat, c: nat, ch: nat)
    requires forall k :: 0 <= k < |row| ==> |row[k]| == channels
    requires c < |row| && ch < channels
    ensures c * channels + ch < |FlattenRow(row)|
    ensures FlattenRow(row)[c * channels + ch] == row[c][ch]
    decreases |row|
  {
    FlattenRowLength(row, channels);
    if c > 0 {
      FlattenRowAt(row[1..], channels, c - 1, ch);
      assert c * channels + ch == channels + ((c - 1) * channels + ch);
    }
  }

  lemma {:induction false} FlattenRowsAt(g: Grid, sh: Shape, r: nat, j: nat)
    requires HasShape(g, sh)
    requires r < sh.height && j < sh.width * sh.channels
    ensures |FlattenRow(g[r])| == sh.width * sh.channels
    ensures r * (sh.width * sh.channels) + j < |Flatten(g)|
    ensures Flatten(g)[r * (sh.width * sh.channels) + j] == FlattenRow(g[r])[j]
    decreases r
  {
    var rowLen := sh.width * sh.channels;
    var head := FlattenRow(g[0]);
    var tail := Flatten(g[1..]);
    FlattenRowLength(g[r], sh.channels);
    FlattenRowLength(g[0], sh.channels);
    assert Flatten(g) == head + tail;
    if r > 0 {
      var idx' := (r - 1) * rowLen + j;
      FlattenRowsAt(g[1..], Shape(sh.height - 1, sh.width, sh.channels), r - 1, j);
      assert g[1..][r - 1] == g[r];
      assert idx' < |tail| && tail[idx'] == FlattenRow(g[r])[j];
      PeelRow(r, rowLen);
      assert r * rowLen + j == |head| + idx';
      assert (head + tail)[|head| + idx'] == tail[idx'];
    }
  }

  /** The flat order is row-major with the channel varying fastest: sample
      (r, c, ch) lands at index (r*width + c)*channels + ch. */
  lemma FlattenAt(g: Grid, sh: Shape, r: nat, c: nat, ch: nat)
    requires HasShape(g, sh)
    requires r < sh.height && c < sh.width && ch < sh.channels
    ensures (r * sh.width + c) * sh.channels + ch < |Flatten(g)|
    ensures Flatten(g)[(r * sh.width + c) * sh.channels + ch] == g[r][c][ch]
  {
    var j := c * sh.channels + ch;
    FlattenRowAt(g[r], sh.channels, c, ch);
    ColumnBound(c, sh.width, ch, sh.channels);
    FlattenRowsAt(g, sh, r, j);
    RowMajorIndex(r, sh.width, c, sh.channels, ch);
  }

  lemma ColumnBound(c: nat, w: nat, ch: nat, k: nat)
    requires c < w && ch < k
    ensures c * k + ch < w * k
  {
    var d := w - (c + 1);
    assert w * k == (c + 1) * k + d * k;
  }

  lemma RowMajorIndex(r: nat, w: nat, c: nat, k: nat, ch: nat)
    ensures (r * w + c) * k + ch == r * (w * k) + (c * k + ch)
  {
  }
}
