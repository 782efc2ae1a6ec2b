/** Key derivation and the encrypt-then-MAC blob of hidetextvideo-2.py
    (derive_keys, encrypt_text, decrypt_text). SHA-256, HMAC-SHA256, the
    AES-128 block function and UTF-8 are taken as given functions; the
    layout, the slicing and the order of the checks are what is modelled. */
module AuthCipher {
  import opened Common
  import Pkcs7
  import Cbc

  type Digest = s: seq<Byte> | |s| == 32 witness seq(32, _ => 0)

  /** The library functions the program calls. utf8Decode yields None for
      bytes that are not valid UTF-8 (UnicodeDecodeError). */
  datatype Primitives = Primitives(
    sha256: seq<Byte> -> Digest,
    hmacSha256: (Cbc.Block, seq<Byte>) -> Digest,
    aesEncrypt: (Cbc.Block, Cbc.Block) -> Cbc.Block,
    aesDecrypt: (Cbc.Block, Cbc.Block) -> Cbc.Block,
    utf8Encode: string -> seq<Byte>,
    utf8Decode: seq<Byte> -> Option<string>)

  datatype Keys = Keys(aesKey: Cbc.Block, hmacKey: Cbc.Block)

  /** What decrypt_text can raise: InvalidSignature from h.verify, the
      ValueError of a ciphertext that is not whole blocks, the ValueError of
      bad padding, and UnicodeDecodeError. */
  datatype CipherError = InvalidSignature | InvalidCiphertextLength | InvalidPadding | InvalidUtf8

  /** derive_keys: the SHA-256 digest of the UTF-8 password, split in half. */
  function DeriveKeys(p: Primitives, password: string): (k: Keys)
    ensures k.aesKey + k.hmacKey == p.sha256(p.utf8Encode(password))
  {
    var digest := p.sha256(p.utf8Encode(password));
    Keys(digest[..16], digest[16..])
  }

  /** Python's s[start:stop]: negative bounds count from the end, and both
      bounds are clamped to the sequence. */
  function PySlice<T>(s: seq<T>, start: int, stop: int): seq<T>
  {
    var i := if start < 0 then Max(0, |s| + start) else Min(start, |s|);
    var j := if stop < 0 then Max(0, |s| + stop) else Min(stop, |s|);
    if i < j then s[i..j] else []
  }

  /** encrypted_bytes[:16] */
  function IvPart(blob: seq<Byte>): seq<Byte> { PySlice(blob, 0, 16) }

  /** encrypted_bytes[16:-32] */
  function CiphertextPart(blob: seq<Byte>): seq<Byte> { PySlice(blob, 16, -32) }

  /** encrypted_bytes[-32:] */
  function TagPart(blob: seq<Byte>): seq<Byte> { PySlice(blob, -32, |blob|) }

  /** The CBC ciphertext of the padded UTF-8 text under the derived AES key. */
  function Ciphertext(p: Primitives, text: string, password: string, iv: Cbc.Block): (c: seq<Byte>)
    ensures |c| % 16 == 0 && |c| > |p.utf8Encode(text)|
  {
    Cbc.Encrypt(p.aesEncrypt, DeriveKeys(p, password).aesKey, iv, Pkcs7.Pad(p.utf8Encode(text)))
  }

  /** encrypt_text with the IV (os.urandom(16)) passed in: iv + ciphertext +
      HMAC-SHA256(hmacKey, ciphertext). The tag covers the ciphertext only,
      not the IV. */
  function EncryptText(p: Primitives, text: string, password: string, iv: Cbc.Block): (blob: seq<Byte>)
    ensures |blob| % 16 == 0 && |blob| >= 64
    ensures |blob| == 16 + |Ciphertext(p, text, password, iv)| + 32
    ensures blob[..16] == iv
    ensures blob[16..|blob| - 32] == Ciphertext(p, text, password, iv)
    ensures blob[|blob| - 32..] == p.hmacSha256(DeriveKeys(p, password).hmacKey, blob[16..|blob| - 32])
  {
    var c := Ciphertext(p, text, password, iv);
    var blob := iv + c + p.hmacSha256(DeriveKeys(p, password).hmacKey, c);
    assert blob[16..|blob| - 32] == c;
    blob
  }

  /** decrypt_text: slice IV, ciphertext and tag; verify the tag; only then
      decrypt, unpad and decode. */
  function DecryptText(p: Primitives, blob: seq<Byte>, password: string): (r: Result<string, CipherError>)
    ensures r == Err(InvalidSignature) <==>
              p.hmacSha256(DeriveKeys(p, password).hmacKey, CiphertextPart(blob)) != TagPart(blob)
  {
    var keys := DeriveKeys(p, password);
    var iv := IvPart(blob);
    var tag := TagPart(blob);
    var ciphertext := CiphertextPart(blob);
    if p.hmacSha256(keys.hmacKey, ciphertext) != tag then Err(InvalidSignature)
    else if |ciphertext| % 16 != 0 then Err(InvalidCiphertextLength)
    else
      assert |blob| >= 32;
      var padded := Cbc.Decrypt(p.aesDecrypt, keys.aesKey, iv, ciphertext);
      match Pkcs7.Unpad(padded)
      case None => Err(InvalidPadding)
      case Some(plain) =>
        match p.utf8Decode(plain)
        case None => Err(InvalidUtf8)
        case Some(text) => Ok(text)
  }

  /** The slices [:16], [16:-32] and [-32:] give back exactly the three parts
      of a blob laid out as IV (16 bytes) + ciphertext + tag (32 bytes). */
  lemma BlobSlices(iv: seq<Byte>, c: seq<Byte>, tag: seq<Byte>)
    requires |iv| == 16 && |tag| == 32
    ensures IvPart(iv + c + tag) == iv
    ensures CiphertextPart(iv + c + tag) == c
    ensures TagPart(iv + c + tag) == tag
  {
    var blob := iv + c + tag;
    assert blob[..16] == iv;
    assert blob[|blob| - 32..] == tag;
    if |c| > 0 {
      assert blob[16..|blob| - 32] == c;
    }
  }

  /** Authenticate-then-decrypt: when the tag does not match, decryption
      fails with InvalidSignature and its outcome does not depend on the
      AES decryption or the UTF-8 decoder at all, so neither runs. */
  lemma TagCheckedFirst(p: Primitives, blob: seq<Byte>, password: string,
                        otherDecrypt: (Cbc.Block, Cbc.Block) -> Cbc.Block,
                        otherDecode: seq<Byte> -> Option<string>)
    requires p.hmacSha256(DeriveKeys(p, password).hmacKey, CiphertextPart(blob)) != TagPart(blob)
    ensures DecryptText(p, blob, password) == Err(InvalidSignature)
    ensures DecryptText(p.(aesDecrypt := otherDecrypt, utf8Decode := otherDecode), blob, password)
         == DecryptText(p, blob, password)
  {
  }

  /** A password whose MAC key gives a different tag over the ciphertext is
      rejected before any decryption. */
  lemma WrongPasswordRejected(p: Primitives, text: string, password: string, other: string, iv: Cbc.Block)
    requires p.hmacSha256(DeriveKeys(p, other).hmacKey, Ciphertext(p, text, password, iv))
          != p.hmacSha256(DeriveKeys(p, password).hmacKey, Ciphertext(p, text, password, iv))
    ensures DecryptText(p, EncryptText(p, text, password, iv), other) == Err(InvalidSignature)
  {
    var c := Ciphertext(p, text, password, iv);
    BlobSlices(iv, c, p.hmacSha256(DeriveKeys(p, password).hmacKey, c));
  }

  /** decrypt_text(encrypt_text(text, pw), pw) == text, given that the AES
      decryption inverts the encryption and UTF-8 decoding inverts encoding. */
  lemma DecryptEncrypt(p: Primitives, text: string, password: string, iv: Cbc.Block)
    requires forall k: Cbc.Block, b: Cbc.Block :: p.aesDecrypt(k, p.aesEncrypt(k, b)) == b
    requires forall s: string :: p.utf8Decode(p.utf8Encode(s)) == Some(s)
    ensures DecryptText(p, EncryptText(p, text, password, iv), password) == Ok(text)
  {
    var keys := DeriveKeys(p, password);
    var c := Ciphertext(p, text, password, iv);
    var blob := EncryptText(p, text, password, iv);
    BlobSlices(iv, c, p.hmacSha256(keys.hmacKey, c));
    var padded := Pkcs7.Pad(p.utf8Encode(text));
    Cbc.DecryptEncrypt(p.aesEncrypt, p.aesDecrypt, keys.aesKey, iv, padded);
    Pkcs7.UnpadPad(p.utf8Encode(text));
  }
}
