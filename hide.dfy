/** LSB embedding into an image (hide.py, HideImage.embed_text_lsb): frame the
    message, check that it fits, overwrite the least significant bit of the
    leading samples in a flat int16 working copy, clip back to 8 bits and
    reshape to the original grid. */
module Hide {
  import opened NdArray
  import opened Operations
  import opened Results

  const Int16Min: int := -32768
  const Int16Max: int := 32767

  const EmbedPrefix: string := "Error embedding text: "

  /** np.clip of one value. */
  function Clip(v: int, lo: int, hi: int): (r: int)
    requires lo <= hi
    ensures lo <= r <= hi
    ensures lo <= v <= hi ==> r == v
  {
    if v < lo then lo else if v > hi then hi else v
  }

  /** v & ~1: the value with its least significant bit cleared. */
  function ClearLsb(v: int): int
  {
    v - v % 2
  }

  /** v | b for a single bit b. */
  function OrBit(v: int, b: Bit): int
  {
    if b == 1 && v % 2 == 0 then v + 1 else v
  }

  /** One pass of the embedding loop on sample v with payload bit b. */
  function EmbedSample(v: int, b: Bit): int
  {
    Clip(OrBit(Clip(ClearLsb(v), Int16Min, Int16Max), b), Int16Min, Int16Max)
  }

  /** The bit string the embedder writes: the message's '08b' codes followed
      by eight zero digits. */
  function Frame(message: seq<nat>): seq<Bit>
  {
    StrToBin(message) + Zeros(8)
  }

  /** The flat working copy after the loop: sample i below |bits| passed
      through one loop step with bit i, the rest untouched. */
  function LsbEmbedded(samples: seq<int>, bits: seq<Bit>): seq<int>
    requires |bits| <= |samples|
  {
    seq(|samples|, i requires 0 <= i < |samples| => if i < |bits| then EmbedSample(samples[i], bits[i]) else samples[i])
  }

  /** np.clip(flat, 0, 255).astype(np.uint8) */
  function ClipAll(samples: seq<int>): (bytes: seq<Byte>)
    ensures |bytes| == |samples|
    ensures (forall i :: 0 <= i < |samples| ==> 0 <= samples[i] < 256) ==> bytes == samples
  {
    seq(|samples|, i requires 0 <= i < |samples| => Clip(samples[i], 0, 255))
  }

  /** Whether the framed message fits in the carrier's samples. */
  predicate Fits(g: Grid, message: seq<nat>)
  {
    |Frame(message)| <= |Flatten(g)|
  }

  /** The stego image a successful embed writes. */
  function Stego(g: Grid, message: seq<nat>): Grid
    requires Rectangular(g) && Fits(g, message)
  {
    FlattenLength(g, ShapeOf(g));
    Reshape(ClipAll(LsbEmbedded(Flatten(g), Frame(message))), ShapeOf(g))
  }

  /** The embedding loop (hide.py:19-26), in place on the flat working copy. */
  method EmbedBits(flat: array<int>, bits: seq<Bit>)
    requires |bits| <= flat.Length
    modifies flat
    ensures flat[..] == LsbEmbedded(old(flat[..]), bits)
  {
    for i := 0 to |bits|
      invariant forall k :: 0 <= k < i ==> flat[k] == EmbedSample(old(flat[k]), bits[k])
      invariant forall k :: i <= k < flat.Length ==> flat[k] == old(flat[k])
    {
      var originalPixel := flat[i];
      originalPixel := ClearLsb(originalPixel);
      originalPixel := Clip(originalPixel, Int16Min, Int16Max);
      var messageBit := bits[i];
      var modifiedPixel := OrBit(originalPixel, messageBit);
      modifiedPixel := Clip(modifiedPixel, Int16Min, Int16Max);
      flat[i] := modifiedPixel;
    }
  }

  /** Fills a fresh int16 working copy with the flattened samples (flatten()
      followed by astype(np.int16)), rejects a frame longer than the copy,
      embeds, and returns the image to be written. Every failure is re-raised
      with the "Error embedding text: " prefix. */
  method EmbedTextLsb(image: ImageRead, message: seq<nat>) returns (r: Result<Grid>)
    requires WellFormed(image)
    ensures image.Unreadable? ==> r == Err(EmbedPrefix + NotFound)
    ensures image.Loaded? && !Fits(image.pixels, message) ==> r == Err(EmbedPrefix + TooLong)
    ensures image.Loaded? && Fits(image.pixels, message) ==> r == Ok(Stego(image.pixels, message))
    ensures r.Err? ==> EmbedPrefix <= r.message
  {
    if image.Unreadable? {
      return Err(EmbedPrefix + NotFound);
    }
    var g := image.pixels;
    var binaryMessage := Frame(message);
    var messageLen := |binaryMessage|;
    var samples := Flatten(g);
    var flat := new int[|samples|](i requires 0 <= i < |samples| => samples[i]);
    assert flat[..] == samples;
    if messageLen > flat.Length {
      return Err(EmbedPrefix + TooLong);
    }
    EmbedBits(flat, binaryMessage);
    var clipped := ClipAll(flat[..]);
    FlattenLength(g, ShapeOf(g));
    r := Ok(Reshape(clipped, ShapeOf(g)));
  }

  // ---------------------------------------------------------------------
  // Properties

  /** The frame is eight digits per character plus the eight-digit
      terminator. */
  lemma FrameLayout(message: seq<nat>)
    requires ByteCodes(message)
    ensures |Frame(message)| == 8 * |message| + 8
    ensures Frame(message)[..8 * |message|] == StrToBin(message)
    ensures Frame(message)[8 * |message|..] == Zeros(8)
  {
    ChunksOfStrToBin(message);
  }

  /** On an 8-bit sample the loop step sets the least significant bit to the
      payload bit, keeps the upper seven bits, moves the value by at most one
      and stays within 0..255. */
  lemma EmbedSampleOnByte(v: Byte, b: Bit)
    ensures EmbedSample(v, b) % 2 == b
    ensures EmbedSample(v, b) / 2 == v / 2
    ensures -1 <= EmbedSample(v, b) - v <= 1
    ensures 0 <= EmbedSample(v, b) < 256
  {
  }

  /** What the stego image holds, sample by sample in flat order: the
      frame's bits in the leading least significant bits, the upper bits
      and every later sample unchanged, and the same shape as the input. */
  lemma StegoSamples(g: Grid, message: seq<nat>)
    requires Rectangular(g) && Fits(g, message)
    ensures HasShape(Stego(g, message), ShapeOf(g))
    ensures |Flatten(Stego(g, message))| == |Flatten(g)|
    ensures forall i :: 0 <= i < |Frame(message)| ==>
      Flatten(Stego(g, message))[i] % 2 == Frame(message)[i] &&
      Flatten(Stego(g, message))[i] / 2 == Flatten(g)[i] / 2
    ensures forall i :: |Frame(message)| <= i < |Flatten(g)| ==> Flatten(Stego(g, message))[i] == Flatten(g)[i]
    ensures forall i :: 0 <= i < |Flatten(g)| ==> -1 <= Flatten(Stego(g, message))[i] as int - Flatten(g)[i] <= 1
  {
    var flat := Flatten(g);
    var frame := Frame(message);
    FlattenLength(g, ShapeOf(g));
    var embedded := LsbEmbedded(flat, frame);
    forall i | 0 <= i < |embedded|
      ensures 0 <= embedded[i] < 256
    {
      if i < |frame| {
        EmbedSampleOnByte(flat[i], frame[i]);
      }
    }
    assert ClipAll(embedded) == embedded;
    FlattenReshape(ClipAll(embedded), ShapeOf(g));
    forall i | 0 <= i < |frame|
      ensures embedded[i] % 2 == frame[i] && embedded[i] / 2 == flat[i] / 2
      ensures -1 <= embedded[i] - flat[i] <= 1
    {
      EmbedSampleOnByte(flat[i], frame[i]);
    }
  }
}
