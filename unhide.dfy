/** LSB extraction from an image (unhide.py, UnhideImage.extract_text_lsb):
    read the least significant bit of every sample, cut the bits into 8-bit
    groups and decode groups up to the first all-zero one. */
module Unhide {
  import opened NdArray
  import opened Operations
  import opened Results

  const ExtractPrefix: string := "Error extracting text: "

  /** The group that ends the message. */
  const Terminator: seq<Bit> := Zeros(8)

  /** sample & 1 for every sample, in flat order. */
  function LsbBits(samples: seq<Byte>): seq<Bit>
  {
    seq(|samples|, i requires 0 <= i < |samples| => samples[i] % 2)
  }

  /** The index of the first terminator group, or the number of groups when
      there is none. */
  function FirstTerminator(groups: seq<seq<Bit>>): (k: nat)
    ensures k <= |groups|
    ensures k < |groups| ==> groups[k] == Terminator
    ensures forall i :: 0 <= i < k ==> groups[i] != Terminator
  {
    if groups == [] then 0
    else if groups[0] == Terminator then 0
    else 1 + FirstTerminator(groups[1..])
  }

  /** The message the decoding loop builds: one character per group before
      the first terminator. */
  function Decode(groups: seq<seq<Bit>>): seq<nat>
  {
    Values(groups[..FirstTerminator(groups)])
  }

  /** The message hidden in an image, as extraction reads it. */
  function Revealed(g: Grid): seq<nat>
  {
    Decode(Chunks(LsbBits(Flatten(g))))
  }

  /** The decoding loop (unhide.py:16-20): append each group's character
      until a group equals the terminator. */
  method DecodeGroups(groups: seq<seq<Bit>>) returns (message: seq<nat>)
    ensures |message| <= |groups|
    ensures forall k :: 0 <= k < |message| ==> groups[k] != Terminator && message[k] == BinValue(groups[k])
    ensures |message| < |groups| ==> groups[|message|] == Terminator
    ensures message == Decode(groups)
  {
    message := [];
    for i := 0 to |groups|
      invariant i <= FirstTerminator(groups)
      invariant message == Values(groups[..i])
    {
      if groups[i] == Terminator {
        break;
      }
      assert Values(groups[..i + 1]) == Values(groups[..i]) + [BinValue(groups[i])];
      message := message + [BinValue(groups[i])];
    }
  }

  /** Reads the samples of the loaded image and decodes them. Every failure
      is re-raised with the "Error extracting text: " prefix. */
  method ExtractTextLsb(image: ImageRead) returns (r: Result<seq<nat>>)
    ensures image.Unreadable? ==> r == Err(ExtractPrefix + NotFound)
    ensures image.Loaded? ==> r == Ok(Revealed(image.pixels))
    ensures r.Ok? ==> |r.value| <= (|Flatten(image.pixels)| + 7) / 8
  {
    if image.Unreadable? {
      return Err(ExtractPrefix + NotFound);
    }
    var flatImage := Flatten(image.pixels);
    var binaryMessage := LsbBits(flatImage);
    var chars := Chunks(binaryMessage);
    var message := DecodeGroups(chars);
    r := Ok(message);
  }

  // ---------------------------------------------------------------------
  // Properties

  /** Without any all-zero group, extraction decodes every group, a short
      trailing one included, exactly as bin_to_str does. */
  lemma DecodeWithoutTerminator(bits: seq<Bit>)
    requires forall k :: 0 <= k < |Chunks(bits)| ==> Chunks(bits)[k] != Terminator
    ensures Decode(Chunks(bits)) == BinToStr(bits)
  {
    var groups := Chunks(bits);
    assert FirstTerminator(groups) == |groups|;
    assert groups[..|groups|] == groups;
  }

  /** Groups followed by a terminator decode to exactly the groups' codes,
      whatever comes after the terminator. */
  lemma DecodeStopsAtTerminator(groups: seq<seq<Bit>>, rest: seq<seq<Bit>>)
    requires forall k :: 0 <= k < |groups| ==> groups[k] != Terminator
    ensures Decode(groups + [Terminator] + rest) == Values(groups)
  {
    var all := groups + [Terminator] + rest;
    assert all[|groups|] == Terminator;
    assert forall k :: 0 <= k < |groups| ==> all[k] == groups[k];
    assert FirstTerminator(all) == |groups|;
    assert all[..|groups|] == groups;
  }
}
