/** PKCS#7 padding to 16-byte blocks (section 6.3 of RFC 5652), as the
    padder and unpadder of padding.PKCS7(128) in hidetextvideo-2.py apply it. */
module Pkcs7 {
  import opened Common

  const BlockSize: nat := 16

  /** Appends n copies of the byte n, where n = 16 - len % 16 (so 1..16). */
  function Pad(data: seq<Byte>): (r: seq<Byte>)
    ensures |r| % BlockSize == 0
    ensures |data| < |r| <= |data| + BlockSize
    ensures r[..|data|] == data
  {
    var n := BlockSize - |data| % BlockSize;
    data + seq(n, _ => n)
  }

  /** The unpadder: the input must be a non-empty whole number of blocks
      (otherwise finalize() finds a short buffer), its last byte n must lie
      in 1..16 and the last n bytes must all equal n. */
  function Unpad(data: seq<Byte>): Option<seq<Byte>>
  {
    if |data| == 0 || |data| % BlockSize != 0 then None
    else
      var n := data[|data| - 1];
      if n == 0 || n > BlockSize then None
      else if exists i :: |data| - n <= i < |data| && data[i] != n then None
      else Some(data[..|data| - n])
  }

  /** Unpadding inverts padding, in both directions: Unpad(x) yields m
      exactly when x is the padding of m. */
  lemma UnpadIffPadded(x: seq<Byte>, m: seq<Byte>)
    ensures Unpad(x) == Some(m) <==> x == Pad(m)
  {
    if x == Pad(m) {
      var n := BlockSize - |m| % BlockSize;
      assert x[|x| - 1] == n;
      assert forall i :: |x| - n <= i < |x| ==> x[i] == n;
      assert x[..|x| - n] == m;
    }
    if Unpad(x) == Some(m) {
      var n := x[|x| - 1];
      assert m == x[..|x| - n];
      assert |m| % BlockSize == (BlockSize - n) % BlockSize;
      assert x == m + seq(n, _ => n);
    }
  }

  lemma UnpadPad(data: seq<Byte>)
    ensures Unpad(Pad(data)) == Some(data)
  {
    UnpadIffPadded(Pad(data), data);
  }
}
