/** The codec's end-to-end promises: what the embedder writes the extractor
    reads back, and how the capacity estimate relates to what fits. */
module RoundTrip {
  import opened NdArray
  import opened Operations
  import opened Results
  import Hide
  import Unhide
  import Gui

  /** Character codes the round trip supports: no NUL (it reads as the
      terminator) and nothing above 255 (it needs more than eight digits). */
  predicate Embeddable(message: seq<nat>)
  {
    forall k :: 0 <= k < |message| ==> 1 <= message[k] <= 255
  }

  /** Decoding a frame gives back the message, whatever digits follow it. */
  lemma DecodeFrame(message: seq<nat>, rest: seq<Bit>)
    requires Embeddable(message)
    ensures Unhide.Decode(Chunks(Hide.Frame(message) + rest)) == message
  {
    var payload := StrToBin(message);
    ChunksOfStrToBin(message);
    assert Hide.Frame(message) + rest == payload + (Unhide.Terminator + rest);
    ChunksAppend(payload, Unhide.Terminator + rest);
    ChunksAppend(Unhide.Terminator, rest);
    assert Chunks(Unhide.Terminator) == [Unhide.Terminator];
    var groups := Chunks(payload);
    forall k | 0 <= k < |groups|
      ensures groups[k] != Unhide.Terminator
    {
      Format08bValue(message[k]);
      ZerosValue(8);
    }
    assert Chunks(Hide.Frame(message) + rest) == groups + [Unhide.Terminator] + Chunks(rest);
    Unhide.DecodeStopsAtTerminator(groups, Chunks(rest));
    forall k | 0 <= k < |message|
      ensures Values(groups)[k] == message[k]
    {
      Format08bValue(message[k]);
    }
  }

  /** The least significant bits of the stego image start with the frame. */
  lemma StegoBits(g: Grid, message: seq<nat>)
    requires Rectangular(g) && Hide.Fits(g, message)
    ensures |Flatten(Hide.Stego(g, message))| == |Flatten(g)|
    ensures Unhide.LsbBits(Flatten(Hide.Stego(g, message)))[..|Hide.Frame(message)|] == Hide.Frame(message)
  {
    Hide.StegoSamples(g, message);
  }

  /** Extracting from the stego image gives back the message. */
  lemma RevealStego(g: Grid, message: seq<nat>)
    requires Rectangular(g)
    requires Embeddable(message)
    requires 8 * |message| + 8 <= |Flatten(g)|
    ensures Hide.Fits(g, message)
    ensures Unhide.Revealed(Hide.Stego(g, message)) == message
  {
    Hide.FrameLayout(message);
    var frame := Hide.Frame(message);
    var bits := Unhide.LsbBits(Flatten(Hide.Stego(g, message)));
    Hide.StegoSamples(g, message);
    StegoBits(g, message);
    assert bits == frame + bits[|frame|..];
    DecodeFrame(message, bits[|frame|..]);
  }

  /** HideImage.embed_text_lsb followed by UnhideImage.extract_text_lsb
      returns the message. */
  method HideThenUnhide(g: Grid, message: seq<nat>) returns (r: Result<seq<nat>>)
    requires Rectangular(g)
    requires Embeddable(message)
    requires 8 * |message| + 8 <= |Flatten(g)|
    ensures r == Ok(message)
  {
    RevealStego(g, message);
    var stego := Hide.EmbedTextLsb(Loaded(g), message);
    r := Unhide.ExtractTextLsb(Loaded(stego.value));
  }

  /** The front end's embed_text_lsb followed by its extract_text_lsb
      returns the message. */
  method GuiEmbedThenExtract(g: Grid, message: seq<nat>) returns (r: Result<seq<nat>>)
    requires Rectangular(g)
    requires Embeddable(message)
    requires 8 * |message| + 8 <= |Flatten(g)|
    ensures r == Ok(message)
  {
    RevealStego(g, message);
    var stego := Gui.EmbedTextLsb(Loaded(g), message);
    r := Gui.ExtractTextLsb(Loaded(stego.value));
  }

  /** A message shorter than the image estimate always fits: the estimate
      counts the terminator byte and ignores channels, so it never exceeds
      what the embedder accepts when the image has at least one channel. */
  lemma EstimateAdmits(g: Grid, message: seq<nat>)
    requires Rectangular(g) && ShapeOf(g).channels >= 1
    requires ByteCodes(message)
    requires |message| < MaxCapacityImage(Loaded(g))
    ensures Hide.Fits(g, message)
  {
    var sh := ShapeOf(g);
    Hide.FrameLayout(message);
    FlattenLength(g, sh);
    MaxCapacityImageValue(Loaded(g));
    AreaBound(sh.height, sh.width, sh.channels);
  }

  lemma AreaBound(h: nat, w: nat, c: nat)
    requires c >= 1
    ensures h * w <= h * (w * c)
  {
    MulNonNegative(h * w, c - 1);
    assert h * (w * c) == (h * w) * c;
    assert (h * w) * c == h * w + (h * w) * (c - 1);
  }

  /** A 4x4 image as the reader loads it (three channels) holds 48
      samples: "AB" fits, a five-character message fills it exactly, and a
      six-character one is rejected. */
  lemma FourByFourImage(g: Grid)
    requires HasShape(g, Shape(4, 4, 3))
    ensures |Flatten(g)| == 48
    ensures Hide.Fits(g, [65, 66])
    ensures Hide.Fits(g, [65, 66, 67, 68, 69]) && |Hide.Frame([65, 66, 67, 68, 69])| == |Flatten(g)|
    ensures !Hide.Fits(g, [65, 66, 67, 68, 69, 70])
  {
    FlattenLength(g, Shape(4, 4, 3));
    Hide.FrameLayout([65, 66]);
    Hide.FrameLayout([65, 66, 67, 68, 69]);
    Hide.FrameLayout([65, 66, 67, 68, 69, 70]);
  }

  /** A code of 256 or more breaks the framing: its '08b' numeral is nine
      digits long and decoding yields two characters instead of one. */
  lemma WideCodeBreaksFraming()
    ensures |Hide.Frame([256])| == 17
    ensures BinToStr(StrToBin([256])) != [256]
  {
    Format08bLength(256);
    assert |Format08b(256)| == 9 by {
      assert Digits(256) == Digits(128) + [0];
      assert |Digits(256)| == 9;
    }
    assert StrToBin([256]) == Format08b(256) + StrToBin([]);
    BinToStrShape(StrToBin([256]));
  }
}
