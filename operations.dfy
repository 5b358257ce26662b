/** Bit framing and capacity helpers (operations.py): text to an 8-bit-per-
    character bit string and back, the pixel-value-differencing step table,
    and the byte-capacity estimates for image and audio carriers. */
module Operations {
  import opened NdArray

  /** One binary digit of the bit strings the codec builds ('0' or '1'). */
  type Bit = b: int | 0 <= b <= 1

  function Pow2(k: nat): (p: nat)
    ensures p >= 1
  {
    if k == 0 then 1 else 2 * Pow2(k - 1)
  }

  /** Bit i of n, counting from the least significant bit. */
  function BitOf(n: nat, i: nat): Bit
  {
    (n / Pow2(i)) % 2
  }

  function Zeros(k: nat): (z: seq<Bit>)
    ensures |z| == k
    ensures forall i :: 0 <= i < k ==> z[i] == 0
  {
    seq(k, _ => 0)
  }

  /** The binary numeral of n without leading zeros, most significant digit
      first ("0" for zero). */
  function Digits(n: nat): (d: seq<Bit>)
    ensures 1 <= |d|
  {
    if n < 2 then [n] else Digits(n / 2) + [n % 2]
  }

  /** The '08b' format of a code: its binary numeral left-padded with zeros to
      at least eight digits. Codes of 256 or more give more than eight. */
  function Format08b(n: nat): seq<Bit>
  {
    var d := Digits(n);
    if |d| < 8 then Zeros(8 - |d|) + d else d
  }

  /** The value of a base-2 numeral, most significant digit first. */
  function BinValue(bits: seq<Bit>): nat
  {
    if bits == [] then 0 else 2 * BinValue(bits[..|bits| - 1]) + bits[|bits| - 1]
  }

  /** str_to_bin: the '08b' digits of every character code, concatenated. */
  function StrToBin(text: seq<nat>): seq<Bit>
  {
    if text == [] then [] else Format08b(text[0]) + StrToBin(text[1..])
  }

  function Min(a: int, b: int): int
  {
    if a < b then a else b
  }

  /** The consecutive 8-digit slices of a bit string, taken from the front;
      only the last may be shorter. */
  function Chunks(bits: seq<Bit>): (groups: seq<seq<Bit>>)
    ensures |groups| == (|bits| + 7) / 8
    decreases |bits|
  {
    if bits == [] then []
    else if |bits| <= 8 then [bits]
    else [bits[..8]] + Chunks(bits[8..])
  }

  /** Slice k holds digits 8k up to 8k+8, cut short at the end of the string. */
  lemma {:induction false} ChunksAt(bits: seq<Bit>, k: nat)
    requires k < (|bits| + 7) / 8
    ensures 8 * k < |bits|
    ensures Chunks(bits)[k] == bits[8 * k .. Min(8 * k + 8, |bits|)]
    decreases k
  {
    if k > 0 {
      var tail := bits[8..];
      ChunksAt(tail, k - 1);
      var lo, hi := 8 * k, Min(8 * k + 8, |bits|);
      var piece := tail[8 * (k - 1) .. Min(8 * (k - 1) + 8, |tail|)];
      assert |piece| == hi - lo;
      forall i | 0 <= i < |piece|
        ensures piece[i] == bits[lo + i]
      {
      }
      assert piece == bits[lo .. hi];
    }
  }

  /** The character code of every group. */
  function Values(groups: seq<seq<Bit>>): seq<nat>
  {
    seq(|groups|, k requires 0 <= k < |groups| => BinValue(groups[k]))
  }

  /** bin_to_str: each slice of the bit string, the short trailing one
      included, read as a base-2 character code. */
  function BinToStr(bits: seq<Bit>): seq<nat>
  {
    Values(Chunks(bits))
  }

  /** get_capacity: bits a pixel pair with this difference can carry. */
  function GetCapacity(diff: int): (bits: nat)
    ensures 1 <= bits <= 5
  {
    if diff < 16 then 1
    else if diff < 32 then 2
    else if diff < 64 then 3
    else if diff < 128 then 4
    else 5
  }

  /** max_capacity_image: height*width/8 bytes; 0 when the image cannot be read. */
  function MaxCapacityImage(image: ImageRead): nat
  {
    match image
    case Unreadable => 0
    case Loaded(g) => (ShapeOf(g).height * ShapeOf(g).width) / 8
  }

  /** max_capacity_audio: one bit per frame, frames/8 bytes; 0 when the file
      cannot be read. */
  function MaxCapacityAudio(audio: AudioRead): nat
  {
    match audio
    case AudioUnreadable => 0
    case Wave(frames) => frames / 8
  }

  // ---------------------------------------------------------------------
  // The '08b' format

  lemma {:induction false} DigitsValue(n: nat)
    ensures BinValue(Digits(n)) == n
    decreases n
  {
    if n >= 2 {
      var d := Digits(n / 2);
      DigitsValue(n / 2);
      assert (d + [n % 2])[..|d|] == d;
    }
  }

  lemma {:induction false} LeadingZeros(k: nat, d: seq<Bit>)
    ensures BinValue(Zeros(k) + d) == BinValue(d)
    decreases |d|
  {
    if d == [] {
      assert Zeros(k) + d == Zeros(k);
      ZerosValue(k);
    } else {
      var front := d[..|d| - 1];
      LeadingZeros(k, front);
      assert (Zeros(k) + d)[..|Zeros(k) + d| - 1] == Zeros(k) + front;
    }
  }

  lemma {:induction false} ZerosValue(k: nat)
    ensures BinValue(Zeros(k)) == 0
    decreases k
  {
    if k > 0 {
      ZerosValue(k - 1);
      assert Zeros(k)[..k - 1] == Zeros(k - 1);
    }
  }

  /** Reading an '08b' numeral back gives the code, whatever its size. */
  lemma Format08bValue(n: nat)
    ensures BinValue(Format08b(n)) == n
  {
    DigitsValue(n);
    if |Digits(n)| < 8 {
      LeadingZeros(8 - |Digits(n)|, Digits(n));
    }
  }

  /** A code has at most k binary digits exactly when it is below 2^k. */
  lemma {:induction false} DigitsLength(n: nat, k: nat)
    requires k >= 1
    ensures |Digits(n)| <= k <==> n < Pow2(k)
    decreases n
  {
    if n >= 2 {
      if k == 1 {
        assert |Digits(n)| >= 2 by { assert |Digits(n)| == |Digits(n / 2)| + 1; }
      } else {
        DigitsLength(n / 2, k - 1);
      }
    }
  }

  /** '08b' yields exactly eight digits for codes below 256 and more for
      larger codes. */
  lemma Format08bLength(n: nat)
    ensures n < 256 ==> |Format08b(n)| == 8
    ensures n >= 256 ==> |Format08b(n)| > 8
  {
    assert Pow2(8) == 256;
    DigitsLength(n, 8);
  }

  /** Quotient and remainder are unique. */
  lemma DivUnique(n: int, d: int, q: int, r: int)
    requires d > 0 && n == d * q + r && 0 <= r < d
    ensures n / d == q
  {
    var q', r' := n / d, n % d;
    assert n == d * q' + r';
    assert d * (q - q') == r' - r;
    MulBounds(d, q - q');
  }

  lemma MulBounds(d: int, x: int)
    requires d > 0
    ensures x >= 1 ==> d * x >= d
    ensures x <= -1 ==> d * x <= -d
  {
    if x >= 1 {
      assert d * x == d + d * (x - 1);
      MulNonNegative(d, x - 1);
    } else if x <= -1 {
      assert d * x == -d - d * (-x - 1);
      MulNonNegative(d, -x - 1);
    }
  }

  lemma MulNonNegative(a: int, b: int)
    requires a >= 0 && b >= 0
    ensures a * b >= 0
  {
  }

  lemma DivHalf(n: nat, i: nat)
    ensures (n / 2) / Pow2(i) == n / Pow2(i + 1)
  {
    var p := Pow2(i);
    var q, r1, r0 := (n / 2) / p, (n / 2) % p, n % 2;
    assert n / 2 == p * q + r1;
    assert n == (2 * p) * q + (2 * r1 + r0);
    DivUnique(n, 2 * p, q, 2 * r1 + r0);
  }

  /** Digit i from the right of the numeral is bit i of the code. */
  lemma {:induction false} DigitsAt(n: nat, i: nat)
    requires i < |Digits(n)|
    ensures Digits(n)[|Digits(n)| - 1 - i] == BitOf(n, i)
    decreases n
  {
    if n >= 2 && i > 0 {
      DigitsAt(n / 2, i - 1);
      DivHalf(n, i - 1);
    }
  }

  lemma SmallBitIsZero(n: nat, i: nat)
    requires n < Pow2(i)
    ensures BitOf(n, i) == 0
  {
    DivUnique(n, Pow2(i), 0, n);
  }

  lemma {:induction false} Pow2Mono(i: nat, j: nat)
    requires i <= j
    ensures Pow2(i) <= Pow2(j)
    decreases j
  {
    if i < j {
      Pow2Mono(i, j - 1);
    }
  }

  /** '08b' is big-endian: digit j of a code below 256 is its bit 7 - j. */
  lemma Format08bBigEndian(n: nat, j: nat)
    requires n < 256 && j < 8
    ensures |Format08b(n)| == 8
    ensures Format08b(n)[j] == BitOf(n, 7 - j)
  {
    Format08bLength(n);
    var d := Digits(n);
    var pad := 8 - |d|;
    if j < pad {
      DigitsLength(n, |d|);
      Pow2Mono(|d|, 7 - j);
      SmallBitIsZero(n, 7 - j);
    } else {
      DigitsAt(n, 7 - j);
    }
  }

  // ---------------------------------------------------------------------
  // str_to_bin and bin_to_str

  predicate ByteCodes(text: seq<nat>)
  {
    forall k :: 0 <= k < |text| ==> text[k] < 256
  }

  /** str_to_bin distributes over concatenation. */
  lemma {:induction false} StrToBinConcat(a: seq<nat>, b: seq<nat>)
    ensures StrToBin(a + b) == StrToBin(a) + StrToBin(b)
    decreases |a|
  {
    var c := a + b;
    if a == [] {
      assert c == b;
    } else {
      assert c[0] == a[0] && c[1..] == a[1..] + b;
      StrToBinConcat(a[1..], b);
      calc {
        StrToBin(c);
        Format08b(a[0]) + StrToBin(a[1..] + b);
        Format08b(a[0]) + (StrToBin(a[1..]) + StrToBin(b));
        (Format08b(a[0]) + StrToBin(a[1..])) + StrToBin(b);
      }
    }
  }

  /** For codes below 256, str_to_bin slices into exactly the '08b' groups of
      the characters, one group of eight digits per character. */
  lemma {:induction false} ChunksOfStrToBin(text: seq<nat>)
    requires ByteCodes(text)
    ensures |StrToBin(text)| == 8 * |text|
    ensures Chunks(StrToBin(text)) == seq(|text|, k requires 0 <= k < |text| => Format08b(text[k]))
    decreases |text|
  {
    if text != [] {
      Format08bLength(text[0]);
      ChunksOfStrToBin(text[1..]);
      var head := Format08b(text[0]);
      var rest := StrToBin(text[1..]);
      ChunksAppend(head, rest);
    }
  }

  /** Slicing a bit string whose first part is a whole number of groups
      slices the two parts separately. */
  lemma {:induction false} ChunksAppend(a: seq<Bit>, b: seq<Bit>)
    requires |a| % 8 == 0
    ensures Chunks(a + b) == Chunks(a) + Chunks(b)
    decreases |a|
  {
    if a == [] {
      assert a + b == b;
    } else {
      if |a| == 8 {
        if b == [] {
          assert a + b == a;
        } else {
          assert (a + b)[..8] == a && (a + b)[8..] == b;
        }
      } else {
        ChunksAppend(a[8..], b);
        assert (a + b)[..8] == a[..8];
        assert (a + b)[8..] == a[8..] + b;
      }
    }
  }

  /** Digit j of character k's group in str_to_bin is bit 7 - j of its code. */
  lemma StrToBinAt(text: seq<nat>, k: nat, j: nat)
    requires ByteCodes(text)
    requires k < |text| && j < 8
    ensures |StrToBin(text)| == 8 * |text|
    ensures StrToBin(text)[8 * k + j] == BitOf(text[k], 7 - j)
  {
    ChunksOfStrToBin(text);
    var groups := Chunks(StrToBin(text));
    ChunksAt(StrToBin(text), k);
    assert groups[k] == StrToBin(text)[8 * k .. 8 * k + 8];
    Format08bBigEndian(text[k], j);
    assert groups[k][j] == StrToBin(text)[8 * k + j];
  }

  /** bin_to_str inverts str_to_bin on text whose codes fit in a byte. */
  lemma BinToStrRoundTrip(text: seq<nat>)
    requires ByteCodes(text)
    ensures BinToStr(StrToBin(text)) == text
  {
    ChunksOfStrToBin(text);
    forall k | 0 <= k < |text|
      ensures BinToStr(StrToBin(text))[k] == text[k]
    {
      Format08bValue(text[k]);
    }
  }

  /** bin_to_str yields one character per slice: ceil(len/8) of them, and a
      short trailing slice is read as its own value rather than dropped. */
  lemma BinToStrShape(bits: seq<Bit>)
    ensures |BinToStr(bits)| == (|bits| + 7) / 8
    ensures forall k :: 0 <= k < |bits| / 8 ==> BinToStr(bits)[k] == BinValue(bits[8 * k .. 8 * k + 8])
    ensures |bits| % 8 != 0 ==> BinToStr(bits)[|bits| / 8] == BinValue(bits[|bits| - |bits| % 8 ..])
  {
    forall k | 0 <= k < |bits| / 8
      ensures BinToStr(bits)[k] == BinValue(bits[8 * k .. 8 * k + 8])
    {
      ChunksAt(bits, k);
    }
    if |bits| % 8 != 0 {
      var last := |bits| / 8;
      ChunksAt(bits, last);
      assert 8 * last == |bits| - |bits| % 8;
      assert Min(8 * last + 8, |bits|) == |bits|;
      assert Chunks(bits)[last] == bits[|bits| - |bits| % 8 ..];
      assert BinToStr(bits)[last] == BinValue(Chunks(bits)[last]);
    }
  }

  // ---------------------------------------------------------------------
  // Capacity

  /** The step table: the capacity b (b < 5) is taken exactly by differences
      in [2^(b+2), 2^(b+3)), with 1 bit below 16 and 5 bits from 128 up. */
  lemma GetCapacityBracket(diff: int)
    ensures GetCapacity(diff) < 5 ==> diff < Pow2(GetCapacity(diff) + 3)
    ensures GetCapacity(diff) > 1 ==> Pow2(GetCapacity(diff) + 2) <= diff
  {
    assert Pow2(4) == 16 && Pow2(5) == 32 && Pow2(6) == 64 && Pow2(7) == 128;
  }

  /** A larger difference never gets fewer bits. */
  lemma GetCapacityMonotone(d1: int, d2: int)
    requires d1 <= d2
    ensures GetCapacity(d1) <= GetCapacity(d2)
  {
  }

  /** The image estimate is floor(height*width/8): channels are ignored, and
      an unreadable image reports 0. */
  lemma MaxCapacityImageValue(image: ImageRead)
    ensures image.Unreadable? ==> MaxCapacityImage(image) == 0
    ensures image.Loaded? ==>
      var sh := ShapeOf(image.pixels);
      8 * MaxCapacityImage(image) <= sh.height * sh.width < 8 * MaxCapacityImage(image) + 8
  {
  }

  /** The image estimate never decreases as height*width grows. */
  lemma MaxCapacityImageMonotone(g1: Grid, g2: Grid)
    requires ShapeOf(g1).height * ShapeOf(g1).width <= ShapeOf(g2).height * ShapeOf(g2).width
    ensures MaxCapacityImage(Loaded(g1)) <= MaxCapacityImage(Loaded(g2))
  {
  }

  /** The audio estimate is floor(frames/8), 0 for an unreadable file, and
      never decreases as the frame count grows. */
  lemma MaxCapacityAudioValue(a1: AudioRead, a2: AudioRead)
    ensures a1.AudioUnreadable? ==> MaxCapacityAudio(a1) == 0
    ensures a1.Wave? ==> 8 * MaxCapacityAudio(a1) <= a1.frames < 8 * MaxCapacityAudio(a1) + 8
    ensures a1.Wave? && a2.Wave? && a1.frames <= a2.frames ==> MaxCapacityAudio(a1) <= MaxCapacityAudio(a2)
  {
  }
}
