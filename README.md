# Video text steganography (hidetextvideo-2.py), modelled in Dafny

The program hides a password-protected text in the pixels of a video.

**Hiding** (`hide_text`):
- The text is encrypted with `encrypt_text`. That function:
  - derives two 16-byte keys from the SHA-256 digest of the password;
  - pads the UTF-8 text with PKCS#7;
  - encrypts it with AES-128 in CBC mode under a random IV;
  - appends an HMAC-SHA256 of the ciphertext.
- The resulting blob `iv + ciphertext + tag` becomes a bit string. The bit string holds the blob's length, 32 bits MSB first, followed by the blob's bits, eight per byte, MSB first.
- `hide_text_in_video` writes this bit string into bit 0 of the samples of each frame. It uses the top-left region of at most 100 × 100 pixels × 3 channels, visited row, then column, then channel.
- One index walks across all the frames. Every frame is passed to the writer.

**Revealing** (`extract_text`):
- The length is read from the first 32 region samples of frame 0.
- `extract_text_from_video` reads `8 × length` bits from the frames that follow.
- The bits are regrouped into bytes, and `decrypt_text` checks the tag before it decrypts, unpads and decodes.

## How the model is built

The project is split into these modules:

| module | contents |
|---|---|
| `Common` | bytes and bits, `Option`/`Result`, `Take`/`Drop` (Python `s[:n]`/`s[n:]`), division facts |
| `BitFraming` | `text_to_bin`, `bin_to_bytes`, `int_to_bin32`, `int(s, 2)` and the length-prefixed framing |
| `Pkcs7` | the padder and the unpadder of the `cryptography` package |
| `Cbc` | CBC chaining over a block-cipher parameter |
| `AuthCipher` | `derive_keys`, `encrypt_text`, `decrypt_text` |
| `Frames` | frames as `array3<Byte>`, the region, its visiting order, and the stream of region bits of a frame sequence |
| `Embed` | `hide_text_in_video`, an imperative method that writes into the frame arrays |
| `Extract` | `extract_text_from_video`, the length-prefix loop of `extract_text`, and a continuous cursor |
| `Flows` | `hide_text` and `extract_text` from the encryption onwards, and the misreading they show |

Modelling choices:
- **Value functions.** The helpers and the cipher layer are pure functions.
- **Methods with loops.** The nested `for` loops of the source are methods with loops and loop invariants.
  - Each loop level is its own method: region, row, pixel.
  - Each method is proved against a specification function on the frames. For the readers that is `FrameLsbs`/`LsbStream`, the bits the nested loops visit, frame after frame. For the embedder it is `Embedded`.
- **Library functions.** SHA-256, HMAC-SHA256, the AES-128 block function and UTF-8 encoding and decoding are fields of a `Primitives` value. The CBC chaining, the PKCS#7 rules, the slicing `[:16]`, `[16:-32]`, `[-32:]` and the order of the checks are modelled concretely.
- **The IV.** The IV is an argument of the model, where the program calls `os.urandom(16)`.

## Model

| member | source | states |
|---|---|---|
| BitFraming.TextToBin | hidetextvideo-2.py:17-18 | the bit string has exactly 8 bits per byte |
| BitFraming.TextToBinChunk | hidetextvideo-2.py:17-18 | bits 8i..8i+7 are byte i written as 8 binary digits |
| BitFraming.TextToBinBit | hidetextvideo-2.py:17-18 | bit 8i+j is the binary digit of weight 2^(7-j) of byte i (MSB first) |
| BitFraming.BinToBytes | hidetextvideo-2.py:20-22 | one byte per 8-bit chunk, the last chunk possibly shorter: ⌈len/8⌉ bytes |
| BitFraming.BitsToIntBound | hidetextvideo-2.py:22 | int(c, 2) of an n-bit chunk is below 2^n, so a chunk of at most 8 bits is a valid byte |
| BitFraming.BytesRoundTrip | hidetextvideo-2.py:17-22 | bin_to_bytes(text_to_bin(b)) == b for every byte string |
| BitFraming.FormatBinRoundTrip | hidetextvideo-2.py:24-25 | int(format(n, '0wb'), 2) == n for every n and width |
| BitFraming.FormatBinWidth | hidetextvideo-2.py:24-25 | format(n, '032b') has exactly 32 digits when n < 2^32 and more digits otherwise |
| BitFraming.FormatBinDigit | hidetextvideo-2.py:24-25 | digit j of format(n, '0wb') is the digit of weight 2^(w-1-j) of n |
| BitFraming.FramingRoundTrip | hidetextvideo-2.py:142-145 | for a blob under 2^32 bytes, full_bin has 32 + 8·len bits, its first 32 bits parse to len(blob), and the rest regroups into the blob |
| BitFraming.OversizedLengthField | hidetextvideo-2.py:144 | a blob of 2^32 bytes or more gets a length field longer than the 32 bits the reader takes |
| Pkcs7.Pad | hidetextvideo-2.py:34-35 | the padded text is a whole number of 16-byte blocks, 1 to 16 bytes longer, and starts with the text |
| Pkcs7.UnpadIffPadded | hidetextvideo-2.py:56-57 | the unpadder returns m exactly when its input is the padding of m; every other input is rejected |
| Pkcs7.UnpadPad | hidetextvideo-2.py:34-35 | unpadding a padded text gives the text back |
| Cbc.XorCancel | hidetextvideo-2.py:37-39 | xor with the same value twice gives the value back |
| Cbc.XorBlockCancel | hidetextvideo-2.py:53-55 | block xor with the same block twice gives the block back |
| Cbc.Encrypt | hidetextvideo-2.py:37-39 | CBC encryption of whole blocks keeps the length |
| Cbc.Decrypt | hidetextvideo-2.py:53-55 | CBC decryption of whole blocks keeps the length |
| Cbc.DecryptEncrypt | hidetextvideo-2.py:37-39 | with a block function and its inverse, CBC decryption under the same key and IV undoes CBC encryption |
| AuthCipher.DeriveKeys | hidetextvideo-2.py:28-30 | the AES key and the HMAC key are the two halves of the password's SHA-256 digest, in that order |
| AuthCipher.Ciphertext | hidetextvideo-2.py:33-39 | the ciphertext is whole blocks and longer than the UTF-8 text |
| AuthCipher.EncryptText | hidetextvideo-2.py:32-43 | the blob is 16-byte aligned and at least 64 bytes; it is the IV, then the ciphertext, then the HMAC of the ciphertext alone under the derived HMAC key |
| AuthCipher.DecryptText | hidetextvideo-2.py:45-57 | decryption fails with InvalidSignature exactly when the HMAC of blob[16:-32] differs from blob[-32:] |
| AuthCipher.BlobSlices | hidetextvideo-2.py:47-49 | [:16], [16:-32] and [-32:] give back the IV, ciphertext and tag of a blob laid out as 16 + n + 32 bytes |
| AuthCipher.TagCheckedFirst | hidetextvideo-2.py:50-55 | with a failing tag, the result is InvalidSignature whatever the AES decryption and the UTF-8 decoder are |
| AuthCipher.WrongPasswordRejected | hidetextvideo-2.py:45-52 | a password whose HMAC key gives another tag over the ciphertext is rejected with InvalidSignature |
| AuthCipher.DecryptEncrypt | hidetextvideo-2.py:32-57 | decrypt_text(encrypt_text(text, pw), pw) == text, given inverse AES and UTF-8 functions |
| Frames.CellIndexDecode | hidetextvideo-2.py:73-75 | cell (i, j, k) is visited at position 3(i·cols + j) + k of the region |
| Frames.CellIndexEncode | hidetextvideo-2.py:73-75 | every position below the capacity belongs to exactly one region cell |
| Frames.CellIndexBound | hidetextvideo-2.py:71-75 | every region cell's position lies below min(100,H)·min(100,W)·3 |
| Frames.PositionCell | hidetextvideo-2.py:71-75 | region position q is cell (q/3/cols, q/3 mod cols, q mod 3), a cell inside the region |
| Frames.FrameLsbs | hidetextvideo-2.py:91-99 | one frame contributes min(100,H)·min(100,W)·3 bits |
| Frames.FrameLsbsAt | hidetextvideo-2.py:94-98 | the region bit at cell (i, j, k)'s position is frame[i, j, k] & 1 |
| Frames.LsbStream | hidetextvideo-2.py:86-99 | the stream of a frame sequence has the total capacity Σ min(100,H)·min(100,W)·3 as its length |
| Frames.TotalCapacityAppend | hidetextvideo-2.py:62-80 | the capacity of two frame sequences one after the other is the sum of their capacities |
| Frames.LsbStreamAppend | hidetextvideo-2.py:86-99 | the stream of two frame sequences one after the other is their streams one after the other |
| Frames.LsbStreamSplit | hidetextvideo-2.py:86-99 | the stream is the frames before t, then frame t's region, then the frames after t |
| Frames.LsbStreamAtPosition | hidetextvideo-2.py:94-98 | stream position TotalCapacity(frames before t) + q holds bit 0 of region position q of frame t |
| Frames.LsbStreamAt | hidetextvideo-2.py:94-98 | stream position TotalCapacity(frames before t) + CellIndex(i, j, k) holds frame_t[i, j, k] & 1 |
| Embed.SetLsb | hidetextvideo-2.py:77 | (v & ~1) \| bit has bit 0 equal to bit and leaves the other bits of v alone |
| Embed.EmbeddedBit | hidetextvideo-2.py:76-78 | a region cell whose cursor position is inside full_bin ends with bit 0 equal to that bit |
| Embed.EmbedPixel | hidetextvideo-2.py:75-78 | the three samples of pixel (i, j) are stamped while bits remain; the index advances by the number stamped; no other sample changes |
| Embed.EmbedRow | hidetextvideo-2.py:74-78 | row i of the region is stamped in column order; no other row changes |
| Embed.EmbedRegion | hidetextvideo-2.py:68-78 | every sample of the frame is its stamped value inside the region and its old value elsewhere; the index ends at min(len(full_bin), start + capacity) |
| Embed.HideTextInVideo | hidetextvideo-2.py:60-81 | every frame is written once, in order; each sample is stamped from the single cursor at its global position; the returned index is min(len(full_bin), total capacity); the frames carry full_bin |
| Embed.CarriesStream | hidetextvideo-2.py:60-81 | frames carrying a bit string show it as the first min(len, capacity) bits of their stream |
| Extract.ReadCell | hidetextvideo-2.py:97-99 | visiting one cell appends its bit exactly while fewer than the limit have been collected |
| Extract.ReadPixel | hidetextvideo-2.py:96-99 | after pixel (i, j), the collected bits are the bits before cell (i, j+1, 0), as far as the limit |
| Extract.ReadRow | hidetextvideo-2.py:95-99 | after row i, the collected bits are the bits before row i+1, as far as the limit |
| Extract.ReadRegion | hidetextvideo-2.py:91-99 | one frame appends the first (limit - collected) bits of its region |
| Extract.ExtractTextFromVideo | hidetextvideo-2.py:83-100 | the result is the first 8·text_length bits of the stream of the frames it reads, or all of them if the frames run out |
| Extract.ReadLengthPrefix | hidetextvideo-2.py:168-178 | the length bits are the first 32 region bits of the one frame read, fewer if its region is smaller |
| Extract.ReadBits | hidetextvideo-2.py:61-78 | a cursor that never restarts, like the embedder's index: from position p it returns stream bits p..p+n (fewer at the end) and moves by as many |
| Flows.Reveal | hidetextvideo-2.py:185-189 | the text is shown exactly when decrypt_text succeeds, and it is decrypt_text's text |
| Flows.HideText | hidetextvideo-2.py:142-147 | every sample ends as its old value stamped from full_bin = int_to_bin32(len(blob)) + text_to_bin(blob): inside the region while the cursor is inside full_bin only bit 0 changes, and all other samples keep their values; the frames carry full_bin from the first region cell of frame 0 on |
| Flows.ExtractText | hidetextvideo-2.py:161-189 | with no frame: CouldNotRead; otherwise the length from frame 0's first 32 region bits and the payload from frame 1 on |
| Flows.AsWrittenLengthRight | hidetextvideo-2.py:168-179 | when frame 0's region holds at least 32 bits, the as-written reader parses the hidden blob's length correctly |
| Flows.FirstRegionIsNot32 | hidetextvideo-2.py:71-75 | no frame's region capacity min(100,H)·min(100,W)·3 equals 32, so the as-written payload reader never starts where the payload begins |
| Flows.AsWrittenReadsPastPayload | hidetextvideo-2.py:182 | when the payload fits in frame 0, the as-written reader returns bytes from the bits after frame 0, none of them the payload's |
| Flows.AsWrittenMisreadsExample | hidetextvideo-2.py:83-100 | for a one-byte blob [255] and a 48-bit first region followed by zero bits, the as-written payload is [0] and the continuous one is [255] |
| Flows.ExtractTextContinuous | hidetextvideo-2.py:161-189 | with one cursor: the length from stream bits 0..31, the payload from bit 32 on |
| Flows.ContinuousPayloadRoundTrip | hidetextvideo-2.py:142-145 | a stream that begins with full_bin(blob) gives the blob back |
| Flows.ContinuousRevealRoundTrip | hidetextvideo-2.py:142-189 | on a stream that begins with full_bin(encrypt_text(text, pw)), revealing with pw returns text, given inverse AES/UTF-8 and a length below 2^32 |
| Flows.HideThenReveal | hidetextvideo-2.py:142-189 | hiding into frames with enough capacity, then revealing with one cursor, returns the text |

## Left out

- Video input and output are not modelled (OpenCV capture, the writer, codec and path selection, releases, `hidetextvideo-2.py:114-140`). The frames are the sequence of samples the capture returns.
- The Tk dialogs and message boxes are not modelled (`103-113`, `151`, `153-160`, `187-199`). This includes the early returns when a dialog is cancelled or left empty. The outcome of a reveal is a `Result` value.
- SHA-256, HMAC-SHA256, the AES-128 block function and UTF-8 are parameters, and their internals are left out. Their security properties cannot be proved here. HMAC unforgeability and a wrong password giving a different tag appear only as hypotheses, for example in `WrongPasswordRejected`.
- The random IV of `os.urandom(16)` is an argument.
- The copy made by `frame.astype(np.uint8)` is not modelled. Samples are already bytes, and the model writes straight into the frame arrays.
- The `np.uint8(...)` cast on line 77 is not modelled, because it is the identity on 0..255.
- Frames are assumed to have at least three channels, because they are OpenCV colour frames. A frame with fewer channels would make the source fail at `frame.shape` or at the index. Frames are also assumed to be distinct arrays: each read returns a new buffer.
- The embedder writes the length and the payload with one index, but `extract_text_from_video` restarts its index at frame 1. The model follows the source (`Flows.ExtractText`) and adds a one-cursor reader as the correction (see Findings).
- When the frames run out before the payload is complete, the source raises no error: `extract_text_from_video` returns the bits it found, and `decrypt_text` then normally fails on the tag. The model follows the source.
- On the embedding side, bits beyond the total capacity are dropped silently, as in the source (`HideTextInVideo`'s index is min(len(full_bin), capacity)).
- `int('', 2)` is reached when frame 0 has an empty region. It raises outside the `try` of `extract_text`. The model returns `MalformedLength` for it.
- Once the limit is reached, `extract_text_from_video` still consumes one more frame before it stops. This has no effect on the result and is not modelled.
- HideTextInVideo: it does not separately state that frames after the end of full_bin are unchanged. This follows from its per-sample postcondition, because a sample whose position lies past the end keeps its value.

## Findings

| source | as written | input that shows it | evidently intended | confidence | as-written member | corrected member |
|---|---|---|---|---|---|---|
| hidetextvideo-2.py:83-87 | `extract_text` uses frame 0 only for the 32-bit length. `extract_text_from_video` then starts a new index at 0 and reads from the first region cell of frame 1. The embedder wrote the payload right after the length, from region cell 32 of frame 0. So the payload is read from the wrong place, since frame 0's capacity (a multiple of 3) is never 32. | A one-byte blob `[255]` hidden in frames whose first region is 4 × 4 pixels (48 bits), followed by zero bits. The as-written reader returns `[0]`. | One cursor for the length field and the payload. The payload is read from stream position 32, where the embedder put it. | high; not executed | Flows.ExtractText, Flows.AsWrittenMisreadsExample | Flows.ExtractTextContinuous, Flows.ContinuousRevealRoundTrip |
