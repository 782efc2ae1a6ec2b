/** The bit framing of hidetextvideo-2.py: bytes become MSB-first '0'/'1'
    strings (text_to_bin), 8-character chunks become bytes again
    (bin_to_bytes), a length is written as format(n, '032b') (int_to_bin32)
    and parsed back with int(s, 2). A bit string is a seq<Bit>. */
module BitFraming {
  import opened Common

  /** format(n, '0<w>b'): the binary digits of n, most significant first,
      left-padded with zeros to at least w digits. A value that needs more
      than w digits gets all of them, as Python does. */
  function FormatBin(n: nat, w: nat): seq<Bit>
    decreases n + w
  {
    if n < 2 && w <= 1 then [n]
    else FormatBin(n / 2, if w == 0 then 0 else w - 1) + [n % 2]
  }

  /** int(s, 2) for a non-empty string of '0'/'1' (digits weighted MSB first);
      the empty string, which Python rejects, is kept apart by the callers. */
  function BitsToInt(s: seq<Bit>): nat
  {
    if |s| == 0 then 0 else 2 * BitsToInt(s[..|s| - 1]) + s[|s| - 1]
  }

  /** text_to_bin: every byte becomes format(b, '08b'). */
  function TextToBin(bytes: seq<Byte>): (r: seq<Bit>)
    ensures |r| == 8 * |bytes|
  {
    if |bytes| == 0 then []
    else
      FormatBinWidth(bytes[0], 8);
      FormatBin(bytes[0], 8) + TextToBin(bytes[1..])
  }

  /** bin_to_bytes: consecutive 8-character chunks, the last one possibly
      shorter, each parsed with int(chunk, 2). */
  function BinToBytes(bits: seq<Bit>): (r: seq<Byte>)
    ensures |r| == (|bits| + 7) / 8
  {
    if |bits| == 0 then []
    else
      var c := Min(8, |bits|);
      BitsToIntBound(bits[..c]);
      Pow2Monotone(c, 8);
      [BitsToInt(bits[..c])] + BinToBytes(bits[c..])
  }

  /** int_to_bin32: format(n, '032b'). */
  function IntToBin32(n: nat): seq<Bit>
  {
    FormatBin(n, 32)
  }

  /** The stream the embedder writes: length_bin + text_bin. */
  function FullBin(blob: seq<Byte>): seq<Bit>
  {
    IntToBin32(|blob|) + TextToBin(blob)
  }

  lemma {:induction false} BitsToIntSnoc(s: seq<Bit>, b: Bit)
    ensures BitsToInt(s + [b]) == 2 * BitsToInt(s) + b
  {
    assert (s + [b])[..|s|] == s;
  }

  lemma {:induction false} BitsToIntBound(s: seq<Bit>)
    ensures BitsToInt(s) < Pow2(|s|)
  {
    if |s| > 0 {
      BitsToIntBound(s[..|s| - 1]);
    }
  }

  /** int(format(n, '0<w>b'), 2) == n for every n and width. */
  lemma {:induction false} FormatBinRoundTrip(n: nat, w: nat)
    ensures BitsToInt(FormatBin(n, w)) == n
    decreases n + w
  {
    if n < 2 && w <= 1 {
      assert FormatBin(n, w) == [n];
      assert BitsToInt([n]) == 2 * BitsToInt([]) + n;
    } else {
      var w' := if w == 0 then 0 else w - 1;
      FormatBinRoundTrip(n / 2, w');
      BitsToIntSnoc(FormatBin(n / 2, w'), n % 2);
    }
  }

  /** A value below 2^w (w >= 1) is written with exactly w digits; a
      larger value overflows the field with more than w digits. */
  lemma {:induction false} FormatBinWidth(n: nat, w: nat)
    ensures w >= 1 && n < Pow2(w) ==> |FormatBin(n, w)| == w
    ensures n >= Pow2(w) ==> |FormatBin(n, w)| > w
    decreases n + w
  {
    if n < 2 && w <= 1 {
    } else {
      var w' := if w == 0 then 0 else w - 1;
      FormatBinWidth(n / 2, w');
      if w >= 1 {
        assert Pow2(w) == 2 * Pow2(w');
      }
    }
  }

  /** Digit j of format(n, '0<w>b') (counting from the left) is bit
      w - 1 - j of n: the output is MSB first. */
  lemma {:induction false} FormatBinDigit(n: nat, w: nat, j: nat)
    requires w >= 1 && n < Pow2(w) && j < w
    ensures |FormatBin(n, w)| == w
    ensures FormatBin(n, w)[j] == (n / Pow2(w - 1 - j)) % 2
    decreases w
  {
    FormatBinWidth(n, w);
    if w == 1 {
      assert Pow2(w - 1 - j) == 1;
    } else {
      assert Pow2(w) == 2 * Pow2(w - 1);
      FormatBinWidth(n / 2, w - 1);
      assert FormatBin(n, w) == FormatBin(n / 2, w - 1) + [n % 2];
      if j < w - 1 {
        FormatBinDigit(n / 2, w - 1, j);
        var d := Pow2(w - 2 - j);
        DivDiv(n, d);
        assert Pow2(w - 1 - j) == 2 * d;
      } else {
        assert Pow2(w - 1 - j) == 1;
      }
    }
  }

  lemma DivDiv(n: nat, d: nat)
    requires d >= 1
    ensures (n / 2) / d == n / (2 * d)
  {
    var a := n / 2;
    assert n == 2 * (d * (a / d)) + (2 * (a % d) + n % 2);
    DivUnique(n, 2 * d, a / d, 2 * (a % d) + n % 2);
  }

  /** Bits 8i .. 8i+7 of text_to_bin(b) are format(b[i], '08b'). */
  lemma {:induction false} TextToBinChunk(bytes: seq<Byte>, i: nat)
    requires i < |bytes|
    ensures TextToBin(bytes)[8 * i..8 * i + 8] == FormatBin(bytes[i], 8)
  {
    FormatBinWidth(bytes[0], 8);
    if i > 0 {
      TextToBinChunk(bytes[1..], i - 1);
    }
  }

  /** text_to_bin emits exactly 8 bits per byte, MSB first: bit 8i + j of the
      output is bit 7 - j of byte i. */
  lemma TextToBinBit(bytes: seq<Byte>, i: nat, j: nat)
    requires i < |bytes| && j < 8
    ensures |TextToBin(bytes)| == 8 * |bytes|
    ensures TextToBin(bytes)[8 * i + j] == (bytes[i] / Pow2(7 - j)) % 2
  {
    TextToBinChunk(bytes, i);
    FormatBinDigit(bytes[i], 8, j);
    assert TextToBin(bytes)[8 * i + j] == TextToBin(bytes)[8 * i..8 * i + 8][j];
  }

  /** bin_to_bytes(text_to_bin(b)) == b. */
  lemma {:induction false} BytesRoundTrip(bytes: seq<Byte>)
    ensures BinToBytes(TextToBin(bytes)) == bytes
  {
    if |bytes| > 0 {
      var bits := TextToBin(bytes);
      FormatBinWidth(bytes[0], 8);
      assert bits[..8] == FormatBin(bytes[0], 8);
      assert bits[8..] == TextToBin(bytes[1..]);
      FormatBinRoundTrip(bytes[0], 8);
      BytesRoundTrip(bytes[1..]);
    }
  }

  /** For a blob shorter than 2^32 bytes, full_bin is exactly
      32 + 8 * len(blob) bits, its first 32 bits parse back to the length
      and the rest regroups into the blob. */
  lemma FramingRoundTrip(blob: seq<Byte>)
    requires |blob| < Pow2(32)
    ensures |FullBin(blob)| == 32 + 8 * |blob|
    ensures BitsToInt(FullBin(blob)[..32]) == |blob|
    ensures BinToBytes(FullBin(blob)[32..]) == blob
  {
    FormatBinWidth(|blob|, 32);
    var full := FullBin(blob);
    assert full[..32] == IntToBin32(|blob|);
    assert full[32..] == TextToBin(blob);
    FormatBinRoundTrip(|blob|, 32);
    BytesRoundTrip(blob);
  }

  /** A blob of 2^32 bytes or more gets a length field wider than the 32
      bits the reader takes, so the framing no longer lines up. */
  lemma OversizedLengthField(blob: seq<Byte>)
    requires |blob| >= Pow2(32)
    ensures |IntToBin32(|blob|)| > 32
  {
    FormatBinWidth(|blob|, 32);
  }
}
