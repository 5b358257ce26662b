# LSB image steganography codec — Dafny model

This project models the codec core of a small steganography tool that hides a
text message in the least significant bits (LSBs) of an 8-bit image and reads
it back, together with the bit-framing and capacity helpers it uses.

- `operations.dfy` (module `Operations`, from `operations.py`): `str_to_bin`
  (each character's `'08b'` numeral, concatenated), `bin_to_str` (8-digit
  slices read back as codes, the short last slice included), the
  pixel-value-differencing step table `get_capacity`, and the byte-capacity
  estimates `max_capacity_image` / `max_capacity_audio` as functions of what
  the readers return.
- `ndarray.dfy` (module `NdArray`): the carrier as the image reader loads it
  (a height x width x channels grid of 0..255 samples), its row-major,
  channel-fastest flattening and the reshape back, and the values the image
  and WAV readers hand to the codec (`Unreadable`, `AudioUnreadable` when the
  file cannot be read).
- `hide.dfy` (module `Hide`, from `hide.py`): `HideImage.embed_text_lsb`. The
  message is framed as its 8-bit codes followed by `00000000`; a frame longer
  than the sample count is rejected before anything is written; otherwise a
  fresh int16 working copy of the flat samples is updated in place by the
  embedding loop (`EmbedBits`, on an `array<int>`), clipped back to 0..255
  and reshaped to the input's shape.
- `unhide.dfy` (module `Unhide`, from `unhide.py`): `UnhideImage.extract_text_lsb`.
  The LSB of every sample, cut into 8-digit groups, decoded by a loop
  (`DecodeGroups`) that stops at the first `00000000` group.
- `gui.dfy` (module `Gui`, from `Garduation_project_gui.py` lines 9-75): the
  front end's own copies of the two functions; they share the embedding loop
  and decoding loop above and differ only in raising their errors without a
  prefix.
- `roundtrip.dfy` (module `RoundTrip`): extraction after embedding returns the
  message, for both copies; how the capacity estimate relates to what fits;
  two concrete scenarios.
- `results.dfy` (module `Results`): `Result<T>`, a value or the text of the
  `ValueError` the source raises.

Encoding choices. Characters are code points (`nat`); the source's strings of
`'0'`/`'1'` are sequences of `Bit` (0 or 1); samples are `Byte` (0..255), the
type of a uint8 array. `format(n, '08b')` is modelled exactly: the binary
numeral of `n` left-padded to eight digits, longer for codes of 256 or more.
The numpy operations of the embed loop are written out: `x & ~1`
(`ClearLsb`), `x | bit` (`OrBit`) and both `np.clip` calls to the int16 range,
then the final `np.clip(..., 0, 255)`; the model proves these clips leave
0..255 samples unchanged. Reading a file is a parameter (`ImageRead`,
`AudioRead`); writing the stego image is the returned grid.

The documented intent of the tool differs from its code in a few places; the
model follows the code:
- Extraction from an image with no `00000000` group returns the decoding of
  every group, a short trailing group included; it does not fail with a
  "no hidden message" error.
- `bin_to_str` decodes a short trailing slice as its own value instead of
  discarding it.
- Code points above 255 are not rejected before encoding; their numerals are
  longer than eight digits and break the framing (`RoundTrip.WideCodeBreaksFraming`).
- `max_capacity_image` reports `height*width // 8` bytes and ignores the
  channel count; it is not the sample count in bits.
- Every image is read as three channels, so a 4x4 grayscale file gives 48
  samples: "AB" fits, where a single-channel reading of 16 samples would
  reject it (`RoundTrip.FourByFourImage`).

## Model

| member | source | states |
|---|---|---|
| Operations.Format08bLength | operations.py:14 | `format(ord(c), '08b')` has exactly eight digits when the code is below 256 and more than eight otherwise |
| Operations.Format08bBigEndian | operations.py:14 | the numeral is big-endian: digit j of a code below 256 is its bit 7-j |
| Operations.Format08bValue | operations.py:13-18 | reading an `'08b'` numeral back in base 2 gives the code, for every code |
| Operations.StrToBinConcat | operations.py:13-14 | `str_to_bin` distributes over concatenation of texts |
| Operations.ChunksOfStrToBin | operations.py:13-18 | for codes below 256, `str_to_bin` has length 8*len(text) and its 8-digit slices are exactly the characters' numerals, in order |
| Operations.StrToBinAt | operations.py:13-14 | digit 8k+j of `str_to_bin(text)` is bit 7-j of character k's code |
| Operations.Chunks | operations.py:18 | slicing a bit string at stride 8 gives ceil(len/8) slices |
| Operations.ChunksAt | operations.py:18 | slice k is digits 8k up to 8k+8, cut short at the end; only the last slice can be shorter |
| Operations.ChunksAppend | unhide.py:15 | when the first part is a whole number of groups, slicing a concatenation slices each part separately |
| Operations.BinToStrShape | operations.py:17-19 | `bin_to_str` returns ceil(len/8) characters: each full slice's value, and a short trailing slice read as its own value rather than dropped |
| Operations.BinToStrRoundTrip | operations.py:13-19 | `bin_to_str(str_to_bin(t)) == t` for every text whose codes are below 256 |
| Operations.GetCapacity | operations.py:22-32 | the step table always gives between 1 and 5 bits |
| Operations.GetCapacityBracket | operations.py:22-32 | a capacity b below 5 is given exactly to differences below 2^(b+3), and a capacity above 1 only to differences of at least 2^(b+2): steps at 16, 32, 64, 128 |
| Operations.GetCapacityMonotone | operations.py:22-32 | a larger difference never gets fewer bits |
| Operations.MaxCapacityImageValue | operations.py:33-42 | the image estimate is floor(height*width/8), whatever the channel count, and 0 for an image that cannot be read |
| Operations.MaxCapacityImageMonotone | operations.py:33-42 | the image estimate never decreases as height*width grows |
| Operations.MaxCapacityAudioValue | operations.py:44-52 | the audio estimate is floor(frames/8), 0 for a file that cannot be read, and never decreases as the frame count grows |
| NdArray.FlattenLength | hide.py:16-17 | a grid of shape (h, w, c) flattens to exactly h*w*c samples, the length the capacity check compares against |
| NdArray.FlattenAt | hide.py:16 | the flat order is row-major with the channel fastest: sample (r, c, ch) is at index (r*w + c)*channels + ch |
| NdArray.Reshape | hide.py:28 | reshaping a flat sequence of h*w*c samples gives a grid of shape (h, w, c) |
| NdArray.FlattenReshape | hide.py:27-28 | reshaping and flattening again gives back the same samples |
| NdArray.ReshapeFlatten | hide.py:16-28 | flattening and reshaping to the original shape gives back the grid |
| Hide.Clip | hide.py:22 | `np.clip` stays within its bounds and leaves in-range values unchanged |
| Hide.ClipAll | hide.py:27 | the final clip to 0..255 keeps the sample count and is the identity when every sample is already in 0..255 |
| Hide.FrameLayout | hide.py:14-15 | the frame is the message's 8-bit codes followed by eight zero digits, 8*len(message)+8 digits long |
| Hide.EmbedSampleOnByte | hide.py:20-26 | one loop step on an 8-bit sample sets its LSB to the payload bit, keeps the upper seven bits, changes it by at most 1 and stays in 0..255 |
| Hide.EmbedBits | hide.py:19-26 | the in-place loop passes each of the first len(frame) samples through one step with its frame bit and leaves every later sample unchanged |
| Hide.EmbedTextLsb | hide.py:9-32 | an unreadable image and a frame longer than the sample count are rejected with "Error embedding text: " and the inner message, before any sample is written; otherwise the result is the stego image |
| Hide.StegoSamples | hide.py:16-28 | the stego image has the input's shape and sample count; sample i below the frame length has LSB = frame bit i and the same upper bits; every later sample is unchanged; no sample moves by more than 1 |
| Unhide.FirstTerminator | unhide.py:16-18 | the index where the decoding loop stops: the first `00000000` group, or the group count if there is none |
| Unhide.DecodeGroups | unhide.py:16-20 | the loop returns one character per group before the first `00000000` group, each the group's base-2 value, and stops exactly there |
| Unhide.ExtractTextLsb | unhide.py:8-23 | an unreadable image fails with "Error extracting text: " and the inner message; otherwise the result is the decoding of the LSB groups, at most ceil(samples/8) characters |
| Unhide.DecodeWithoutTerminator | unhide.py:15-21 | with no `00000000` group, extraction decodes every group, the short trailing one included, like `bin_to_str`, and raises nothing |
| Unhide.DecodeStopsAtTerminator | unhide.py:16-20 | groups followed by a terminator decode to exactly those groups' codes, whatever comes after |
| Gui.ExtractTextLsb | Garduation_project_gui.py:9-31 | the front end's extractor: the same LSB decoding up to the first `00000000` group; an unreadable image raises the bare "Image not found" error |
| Gui.EmbedTextLsb | Garduation_project_gui.py:32-75 | the front end's embedder: the same frame, the capacity check before the loop, the same stego image; errors raised without a prefix |
| RoundTrip.DecodeFrame | unhide.py:15-20 | decoding the groups of a frame of codes in 1..255 gives back the message, whatever digits follow the terminator |
| RoundTrip.StegoBits | hide.py:19-26 | the LSBs of the stego image begin with the frame |
| RoundTrip.RevealStego | hide.py:14-28 | for codes in 1..255 and 8*len(m)+8 samples, the frame fits and extraction from the stego image gives back m |
| RoundTrip.HideThenUnhide | unhide.py:8-21 | `UnhideImage.extract_text_lsb` applied to the grid that `HideImage.embed_text_lsb` builds returns the message |
| RoundTrip.GuiEmbedThenExtract | Garduation_project_gui.py:9-75 | the front end's `extract_text_lsb` applied to the grid its `embed_text_lsb` builds returns the message |
| RoundTrip.EstimateAdmits | operations.py:33-42 | a message shorter than the image estimate always passes the embedder's capacity check when the image has a channel |
| RoundTrip.FourByFourImage | hide.py:14-18 | a 4x4 image as the reader loads it (three channels, 48 samples) takes "AB" (24 digits), is filled exactly by five characters (48 digits) and rejects six (56 digits) |
| RoundTrip.WideCodeBreaksFraming | hide.py:14 | a code of 256 makes a 17-digit frame for one character and does not survive `str_to_bin` then `bin_to_str` |

## Left out

- The Tk desktop interface (Garduation_project_gui.py from line 77 on), the Streamlit front end (gui.py) and the upload relay (flask_app.py): widgets, dialogs, HTTP handling and file-system I/O that only pass paths and messages to the codec.
- File reading and writing: `cv2.imread`, `cv2.imwrite`, `wave.open` and the `print` calls. The read result is a parameter (`ImageRead`, `AudioRead`), the written image is the returned grid. The image reader, called with its default flag, always converts to three channels, so a loaded grid has shape (height, width, 3): a grayscale file of 4x4 pixels reaches the codec as 48 samples, and a two-dimensional array (for which `max_capacity_image`'s shape unpacking would fail) does not arise. The codec model itself accepts any channel count.
- The round-trip lemmas and methods assume the stego grid reaches the extractor unchanged. In the program the two are joined by writing and re-reading a file; that holds only for a lossless format such as PNG or BMP, and a lossy format such as JPEG (offered by the desktop front end's save dialog) changes sample values and loses the message.
- The `HideImage` and `UnhideImage` objects: they only hold the input and output file paths, so their `embed_text_lsb` and `extract_text_lsb` are modelled as module-level methods that take the read image.
- `plot_waveform` (operations.py:56-84): plotting with a floating-point time axis.
- The audio codec: `HideAudio.embed_text_lsb` and `UnhideAudio.extract_text_lsb` are empty stubs with no behaviour.
- Pixel-value-differencing embedding and extraction: the functions are called by the Streamlit front end but defined in none of the codec files; only the step table `get_capacity` exists and is modelled.
- Hide.EmbedBits: the int16 working buffer is an array of unbounded integers; the two int16 clips of each step are modelled, but the buffer's own int16 storage is not, which only matters for values the 0..255 samples never reach.
- Exceptions other than the two the code raises itself ("Image not found", "Message is too long"): nothing else in the modelled code can raise for a loaded 8-bit image.
