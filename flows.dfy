/** The two GUI actions of hidetextvideo-2.py without their dialogs and
    video files: hide_text frames the encrypted text and embeds it;
    extract_text reads a 32-bit length from the first frame, then the
    payload with extract_text_from_video, and decrypts it. The frames of
    the video are the sequence the capture hands out; the writer receives
    every frame in order. */
module Flows {
  import opened Common
  import opened BitFraming
  import opened Frames
  import opened Embed
  import opened Extract
  import AuthCipher
  import Cbc

  /** How extract_text ends without showing the text: the first cap.read()
      fails ("Could not read video!"), int('', 2) raises on an empty length
      field, or decrypt_text raises ("Incorrect password, HMAC failed, or
      video corrupted!"). */
  datatype RevealError = CouldNotRead | MalformedLength | CipherFailure(error: AuthCipher.CipherError)

  /** decrypt_text inside the try of extract_text. */
  function Reveal(p: AuthCipher.Primitives, encrypted: seq<Byte>, password: string): (r: Result<string, RevealError>)
    ensures r.Ok? <==> AuthCipher.DecryptText(p, encrypted, password).Ok?
    ensures r.Ok? ==> r.value == AuthCipher.DecryptText(p, encrypted, password).value
  {
    match AuthCipher.DecryptText(p, encrypted, password)
    case Ok(text) => Ok(text)
    case Err(e) => Err(CipherFailure(e))
  }

  /** hide_text from encrypt_text on: full_bin = int_to_bin32(len(blob)) +
      text_to_bin(blob), embedded from the first region cell of the first
      frame on. The IV is a parameter in place of os.urandom(16). */
  method HideText(p: AuthCipher.Primitives, frames: seq<Frame>, text: string, password: string, iv: Cbc.Block)
    returns (written: seq<Frame>)
    requires ValidFrames(frames) && Distinct(frames)
    modifies frames
    ensures written == frames
    ensures forall t, i, j, k :: 0 <= t < |frames| && 0 <= i < frames[t].Length0 && 0 <= j < frames[t].Length1 && 0 <= k < frames[t].Length2 ==>
              frames[t][i, j, k] == Embedded(frames[t], old(frames[t][i, j, k]), i, j, k,
                                             FullBin(AuthCipher.EncryptText(p, text, password, iv)), TotalCapacity(frames[..t]))
    ensures Carries(frames, FullBin(AuthCipher.EncryptText(p, text, password, iv)))
    ensures var full := FullBin(AuthCipher.EncryptText(p, text, password, iv));
            LsbStream(frames)[..Min(|full|, TotalCapacity(frames))] == full[..Min(|full|, TotalCapacity(frames))]
  {
    var encrypted := AuthCipher.EncryptText(p, text, password, iv);
    var textBin := TextToBin(encrypted);
    var lengthBin := IntToBin32(|encrypted|);
    var fullBin := lengthBin + textBin;
    var _, w := HideTextInVideo(frames, fullBin);
    written := w;
    CarriesStream(frames, fullBin);
  }

  // The reader as written. Over the stream of all region bits, frame 0's
  // region is the first cap0 bits; the length comes from at most its first
  // 32 bits, and extract_text_from_video starts with frame 1, at stream
  // position cap0.

  /** text_length_bin: the first min(32, cap0) stream bits. */
  function LengthField(stream: seq<Bit>, cap0: nat): seq<Bit>
  {
    Take(stream, Min(32, cap0))
  }

  /** bin_to_bytes of the 8 * text_length bits read from stream position
      cap0 on. */
  function AsWrittenPayload(stream: seq<Bit>, cap0: nat): seq<Byte>
  {
    BinToBytes(Take(Drop(stream, cap0), 8 * BitsToInt(LengthField(stream, cap0))))
  }

  function AsWrittenReveal(p: AuthCipher.Primitives, stream: seq<Bit>, cap0: nat, password: string): Result<string, RevealError>
  {
    if |LengthField(stream, cap0)| == 0 then Err(MalformedLength)
    else Reveal(p, AsWrittenPayload(stream, cap0), password)
  }

  /** Frame 0's region bits, then the stream of the remaining frames. */
  lemma FirstFrameSplit(frames: seq<Frame>)
    requires ValidFrames(frames) && |frames| > 0
    ensures ValidFrames(frames[1..])
    ensures LsbStream(frames) == FrameLsbs(frames[0]) + LsbStream(frames[1..])
  {
    var first := [frames[0]];
    assert first[..0] == [];
    assert LsbStream(first) == FrameLsbs(frames[0]);
    assert first + frames[1..] == frames;
    LsbStreamAppend(first, frames[1..]);
  }

  /** extract_text: the first frame's 32-bit prefix loop, int(., 2), then
      extract_text_from_video over the frames that follow it, then
      bin_to_bytes and decrypt_text. */
  method ExtractText(p: AuthCipher.Primitives, frames: seq<Frame>, password: string)
    returns (r: Result<string, RevealError>)
    requires ValidFrames(frames)
    ensures r == if |frames| == 0 then Err(CouldNotRead)
                 else AsWrittenReveal(p, LsbStream(frames), Capacity(frames[0]), password)
  {
    if |frames| == 0 {
      return Err(CouldNotRead);
    }
    var lengthBin := ReadLengthPrefix(frames[0]);
    ghost var stream := LsbStream(frames);
    ghost var cap0 := Capacity(frames[0]);
    FirstFrameSplit(frames);
    TakeAppend(FrameLsbs(frames[0]), LsbStream(frames[1..]), Min(32, cap0));
    assert lengthBin == LengthField(stream, cap0);
    if |lengthBin| == 0 {
      return Err(MalformedLength);
    }
    var textLength := BitsToInt(lengthBin);
    var encryptedBin := ExtractTextFromVideo(frames[1..], textLength);
    assert Drop(stream, cap0) == LsbStream(frames[1..]);
    var encrypted := BinToBytes(encryptedBin);
    r := Reveal(p, encrypted, password);
  }

  /** On a stream that carries full_bin(blob), the as-written reader gets
      the length right whenever frame 0's region holds 32 bits. */
  lemma AsWrittenLengthRight(stream: seq<Bit>, cap0: nat, blob: seq<Byte>)
    requires |blob| < Pow2(32) && cap0 >= 32
    requires Take(stream, |FullBin(blob)|) == FullBin(blob)
    ensures BitsToInt(LengthField(stream, cap0)) == |blob|
  {
    FramingRoundTrip(blob);
    assert LengthField(stream, cap0) == FullBin(blob)[..32];
  }

  /** The payload starts at stream position 32 but the as-written reader
      starts at cap0 = 3 * rows * cols, which is never 32. */
  lemma FirstRegionIsNot32(f: Frame)
    ensures Capacity(f) != 32
  {
    var x := MaxRow(f) * MaxCol(f);
    assert Capacity(f) == 3 * x;
  }

  /** When the whole payload sits in frame 0 (cap0 >= 32 + 8 * len(blob)),
      the as-written reader returns bytes taken from the region bits after
      frame 0, which hold none of it. */
  lemma AsWrittenReadsPastPayload(blob: seq<Byte>, after: seq<Bit>, cap0: nat)
    requires |blob| < Pow2(32) && cap0 >= |FullBin(blob)|
    ensures AsWrittenPayload(FullBin(blob) + after, cap0)
         == BinToBytes(Take(Drop(after, cap0 - |FullBin(blob)|), 8 * |blob|))
  {
    var full := FullBin(blob);
    var stream := full + after;
    FramingRoundTrip(blob);
    assert Take(stream, |full|) == full;
    AsWrittenLengthRight(stream, cap0, blob);
    assert Drop(stream, cap0) == Drop(after, cap0 - |full|);
  }

  lemma {:induction false} BitsToIntZeros(n: nat)
    ensures BitsToInt(seq(n, _ => 0)) == 0
  {
    if n > 0 {
      assert seq(n, _ => 0)[..n - 1] == seq(n - 1, _ => 0);
      BitsToIntZeros(n - 1);
    }
  }

  // The corrected reader: one cursor for the length field and the
  // payload, as the embedder has one index for full_bin.

  /** bin_to_bytes of the 8 * length bits after the first 32. */
  function ContinuousPayload(stream: seq<Bit>): seq<Byte>
  {
    BinToBytes(Take(Drop(stream, 32), 8 * BitsToInt(Take(stream, 32))))
  }

  function ContinuousReveal(p: AuthCipher.Primitives, stream: seq<Bit>, password: string): Result<string, RevealError>
  {
    if |stream| == 0 then Err(MalformedLength)
    else Reveal(p, ContinuousPayload(stream), password)
  }

  /** extract_text with the length and the payload read by one cursor. */
  method ExtractTextContinuous(p: AuthCipher.Primitives, frames: seq<Frame>, password: string)
    returns (r: Result<string, RevealError>)
    requires ValidFrames(frames)
    ensures r == if |frames| == 0 then Err(CouldNotRead) else ContinuousReveal(p, LsbStream(frames), password)
  {
    if |frames| == 0 {
      return Err(CouldNotRead);
    }
    assert frames[..0] == [];
    var lengthBin, t, q := ReadBits(frames, 0, 0, 32);
    if |lengthBin| == 0 {
      return Err(MalformedLength);
    }
    var textLength := BitsToInt(lengthBin);
    var encryptedBin, _, _ := ReadBits(frames, t, q, 8 * textLength);
    ghost var stream := LsbStream(frames);
    assert Drop(stream, |lengthBin|) == Drop(stream, 32);
    var encrypted := BinToBytes(encryptedBin);
    r := Reveal(p, encrypted, password);
  }

  /** A stream that begins with full_bin(blob) gives the blob back to the
      continuous reader. */
  lemma ContinuousPayloadRoundTrip(stream: seq<Bit>, blob: seq<Byte>)
    requires |blob| < Pow2(32)
    requires Take(stream, |FullBin(blob)|) == FullBin(blob)
    ensures ContinuousPayload(stream) == blob
  {
    var full := FullBin(blob);
    FramingRoundTrip(blob);
    assert Take(stream, 32) == full[..32];
    assert Take(Drop(stream, 32), 8 * |blob|) == full[32..];
  }

  /** The concrete instance of the misalignment: a one-byte blob 0xFF in a
      video whose frame 0 region is 4 x 4 pixels (48 bits), followed by
      zero bits. The continuous reader gets [255]; the as-written reader
      gets [0]. */
  lemma AsWrittenMisreadsExample()
    ensures var stream := FullBin([255]) + seq(16, _ => 0);
            ContinuousPayload(stream) == [255] && AsWrittenPayload(stream, 48) == [0]
  {
    var blob: seq<Byte> := [255];
    var zeros: seq<Bit> := seq(16, _ => 0);
    var stream := FullBin(blob) + zeros;
    FramingRoundTrip(blob);
    assert Take(stream, |FullBin(blob)|) == FullBin(blob);
    ContinuousPayloadRoundTrip(stream, blob);
    AsWrittenReadsPastPayload(blob, zeros, 48);
    var eight: seq<Bit> := seq(8, _ => 0);
    assert Take(Drop(zeros, 8), 8) == eight;
    BitsToIntZeros(8);
    assert eight[..8] == eight;
  }

  /** decrypt(bin_to_bytes(...)) after hiding: the text comes back through
      the continuous reader, given inverse AES and UTF-8 functions and a
      blob whose length fits the 32-bit field. */
  lemma ContinuousRevealRoundTrip(p: AuthCipher.Primitives, stream: seq<Bit>, text: string, password: string, iv: Cbc.Block)
    requires forall k: Cbc.Block, b: Cbc.Block :: p.aesDecrypt(k, p.aesEncrypt(k, b)) == b
    requires forall s: string :: p.utf8Decode(p.utf8Encode(s)) == Some(s)
    requires |AuthCipher.EncryptText(p, text, password, iv)| < Pow2(32)
    requires var full := FullBin(AuthCipher.EncryptText(p, text, password, iv));
             Take(stream, |full|) == full
    ensures ContinuousReveal(p, stream, password) == Ok(text)
  {
    var blob := AuthCipher.EncryptText(p, text, password, iv);
    FramingRoundTrip(blob);
    ContinuousPayloadRoundTrip(stream, blob);
    AuthCipher.DecryptEncrypt(p, text, password, iv);
  }

  /** hide_text followed by the corrected extract_text returns the hidden
      text when the frames' regions hold all of full_bin. */
  method HideThenReveal(p: AuthCipher.Primitives, frames: seq<Frame>, text: string, password: string, iv: Cbc.Block)
    returns (r: Result<string, RevealError>)
    requires forall k: Cbc.Block, b: Cbc.Block :: p.aesDecrypt(k, p.aesEncrypt(k, b)) == b
    requires forall s: string :: p.utf8Decode(p.utf8Encode(s)) == Some(s)
    requires |AuthCipher.EncryptText(p, text, password, iv)| < Pow2(32)
    requires ValidFrames(frames) && Distinct(frames)
    requires TotalCapacity(frames) >= |FullBin(AuthCipher.EncryptText(p, text, password, iv))|
    modifies frames
    ensures r == Ok(text)
  {
    var written := HideText(p, frames, text, password, iv);
    ghost var full := FullBin(AuthCipher.EncryptText(p, text, password, iv));
    assert Take(LsbStream(frames), |full|) == full;
    ContinuousRevealRoundTrip(p, LsbStream(frames), text, password, iv);
    r := ExtractTextContinuous(p, written, password);
  }
}
