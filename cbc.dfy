/** Cipher block chaining over an abstract 128-bit block cipher (section 6.2
    of NIST SP 800-38A). The block function, AES-128 in the program, is a
    parameter; the chaining, the block-length rule and the inverse
    relation are modelled. */
module Cbc {
  import opened Common

  type Block = s: seq<Byte> | |s| == 16 witness seq(16, _ => 0)

  /** Exclusive or of two binary digits. */
  function XorBit(x: nat, y: nat): nat
  {
    if x == y then 0 else 1
  }

  /** Bitwise exclusive or of two naturals, one binary digit at a time. */
  function Xor(a: nat, b: nat): nat
    decreases a + b
  {
    if a == 0 && b == 0 then 0 else 2 * Xor(a / 2, b / 2) + XorBit(a % 2, b % 2)
  }

  lemma {:induction false} XorBound(a: nat, b: nat, k: nat)
    requires a < Pow2(k) && b < Pow2(k)
    ensures Xor(a, b) < Pow2(k)
    decreases a + b
  {
    if !(a == 0 && b == 0) {
      if k == 0 {
      } else {
        XorBound(a / 2, b / 2, k - 1);
      }
    }
  }

  /** The lowest digit and the rest of Xor(a, b). */
  lemma XorDigits(a: nat, b: nat)
    ensures Xor(a, b) / 2 == Xor(a / 2, b / 2)
    ensures Xor(a, b) % 2 == XorBit(a % 2, b % 2)
  {
    if a == 0 && b == 0 {
      assert Xor(a / 2, b / 2) == 0;
    } else {
      DivUnique(Xor(a, b), 2, Xor(a / 2, b / 2), XorBit(a % 2, b % 2));
    }
  }

  /** Exclusive or with the same value twice gives the value back. */
  lemma {:induction false} XorCancel(a: nat, b: nat)
    ensures Xor(Xor(a, b), b) == a
    decreases a + b
  {
    if !(a == 0 && b == 0) {
      var c := Xor(a, b);
      XorDigits(a, b);
      XorCancel(a / 2, b / 2);
      XorDigits(c, b);
      assert Xor(c, b) / 2 == a / 2 && Xor(c, b) % 2 == a % 2;
    }
  }

  function XorByte(a: Byte, b: Byte): Byte
  {
    XorBound(a, b, 8);
    Xor(a, b)
  }

  function XorBlock(a: Block, b: Block): (r: Block)
    ensures forall i :: 0 <= i < 16 ==> r[i] == XorByte(a[i], b[i])
  {
    seq(16, i requires 0 <= i < 16 => XorByte(a[i], b[i]))
  }

  lemma XorBlockCancel(a: Block, b: Block)
    ensures XorBlock(XorBlock(a, b), b) == a
  {
    forall i | 0 <= i < 16
      ensures XorBlock(XorBlock(a, b), b)[i] == a[i]
    {
      XorCancel(a[i], b[i]);
    }
  }

  /** C_1 = E(K, P_1 xor IV), C_i = E(K, P_i xor C_{i-1}). */
  function Encrypt(cipher: (Block, Block) -> Block, key: Block, iv: Block, plain: seq<Byte>): (c: seq<Byte>)
    requires |plain| % 16 == 0
    ensures |c| == |plain|
    decreases |plain|
  {
    if |plain| == 0 then []
    else
      var block := cipher(key, XorBlock(plain[..16], iv));
      block + Encrypt(cipher, key, block, plain[16..])
  }

  /** P_1 = D(K, C_1) xor IV, P_i = D(K, C_i) xor C_{i-1}. */
  function Decrypt(inverse: (Block, Block) -> Block, key: Block, iv: Block, c: seq<Byte>): (p: seq<Byte>)
    requires |c| % 16 == 0
    ensures |p| == |c|
    decreases |c|
  {
    if |c| == 0 then []
    else XorBlock(inverse(key, c[..16]), iv) + Decrypt(inverse, key, c[..16], c[16..])
  }

  /** With a block function and its inverse, CBC decryption undoes CBC
      encryption under the same key and IV. */
  lemma {:induction false} DecryptEncrypt(cipher: (Block, Block) -> Block, inverse: (Block, Block) -> Block,
                                          key: Block, iv: Block, plain: seq<Byte>)
    requires |plain| % 16 == 0
    requires forall b: Block :: inverse(key, cipher(key, b)) == b
    ensures Decrypt(inverse, key, iv, Encrypt(cipher, key, iv, plain)) == plain
    decreases |plain|
  {
    if |plain| > 0 {
      var c := Encrypt(cipher, key, iv, plain);
      var block := cipher(key, XorBlock(plain[..16], iv));
      assert c[..16] == block;
      assert c[16..] == Encrypt(cipher, key, block, plain[16..]);
      XorBlockCancel(plain[..16], iv);
      DecryptEncrypt(cipher, inverse, key, block, plain[16..]);
      assert plain == plain[..16] + plain[16..];
    }
  }
}
