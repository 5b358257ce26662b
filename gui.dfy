/** The codec functions of the desktop front end (Garduation_project_gui.py,
    extract_text_lsb and embed_text_lsb). They repeat the algorithms of
    hide.py and unhide.py; the differences are that their errors are raised
    without a prefix. The widgets of that file are not part of this model. */
module Gui {
  import opened NdArray
  import opened Operations
  import opened Results
  import Hide
  import Unhide

  /** extract_text_lsb: the LSB read, 8-bit grouping and decoding loop of
      the extractor; an unreadable image raises the bare error. */
  method ExtractTextLsb(image: ImageRead) returns (r: Result<seq<nat>>)
    ensures image.Unreadable? ==> r == Err(NotFound)
    ensures image.Loaded? ==> r == Ok(Unhide.Revealed(image.pixels))
    ensures r.Ok? ==> |r.value| <= (|Flatten(image.pixels)| + 7) / 8
  {
    if image.Unreadable? {
      return Err(NotFound);
    }
    var flatImage := Flatten(image.pixels);
    var binaryMessage := Unhide.LsbBits(flatImage);
    var chars := Chunks(binaryMessage);
    var message := Unhide.DecodeGroups(chars);
    r := Ok(message);
  }

  /** embed_text_lsb: frame, capacity check before any sample is written,
      the in-place LSB loop, clip and reshape; errors raise unprefixed. */
  method EmbedTextLsb(image: ImageRead, message: seq<nat>) returns (r: Result<Grid>)
    requires WellFormed(image)
    ensures image.Unreadable? ==> r == Err(NotFound)
    ensures image.Loaded? && !Hide.Fits(image.pixels, message) ==> r == Err(TooLong)
    ensures image.Loaded? && Hide.Fits(image.pixels, message) ==> r == Ok(Hide.Stego(image.pixels, message))
  {
    if image.Unreadable? {
      return Err(NotFound);
    }
    var g := image.pixels;
    var binaryMessage := Hide.Frame(message);
    var messageLen := |binaryMessage|;
    var samples := Flatten(g);
    var flatImage := new int[|samples|](i requires 0 <= i < |samples| => samples[i]);
    assert flatImage[..] == samples;
    if messageLen > flatImage.Length {
      return Err(TooLong);
    }
    Hide.EmbedBits(flatImage, binaryMessage);
    var clipped := Hide.ClipAll(flatImage[..]);
    FlattenLength(g, ShapeOf(g));
    r := Ok(Reshape(clipped, ShapeOf(g)));
  }
}
