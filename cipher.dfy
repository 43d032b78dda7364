// Stand-in for the stream ciphers the device can switch between. Every cipher is
// a length-preserving transformation of a flake keyed by the flake key; the only
// property the rest of the model relies on is that decryption undoes encryption
// under the same cipher and key.
module Cipher {
  import opened Types
  import Arith

  /** Keystream byte i of cipher c under key. */
  function Keystream(c: CipherId, key: seq<byte>, i: nat): byte
  {
    var k := if |key| == 0 then 0 else key[Arith.Rem(i, |key|)] as int;
    ((c as int * 151 + k + i * 7) % 256) as byte
  }

  function EncryptByte(c: CipherId, key: seq<byte>, i: nat, p: byte): byte
  {
    ((p as int + Keystream(c, key, i) as int) % 256) as byte
  }

  function DecryptByte(c: CipherId, key: seq<byte>, i: nat, x: byte): byte
  {
    ((x as int - Keystream(c, key, i) as int) % 256) as byte
  }

  lemma DecryptEncryptByte(c: CipherId, key: seq<byte>, i: nat, p: byte)
    ensures DecryptByte(c, key, i, EncryptByte(c, key, i, p)) == p
  {
    var k := Keystream(c, key, i) as int;
    var x := (p as int + k) % 256;
    if p as int + k < 256 {
      assert x == p as int + k;
    } else {
      assert x == p as int + k - 256;
    }
  }

  /** Encrypts a flake's plaintext, byte by byte. */
  function Encrypt(c: CipherId, key: seq<byte>, p: seq<byte>): (x: seq<byte>)
    ensures |x| == |p|
  {
    if |p| == 0 then [] else Encrypt(c, key, p[..|p| - 1]) + [EncryptByte(c, key, |p| - 1, p[|p| - 1])]
  }

  function Decrypt(c: CipherId, key: seq<byte>, x: seq<byte>): (p: seq<byte>)
    ensures |p| == |x|
  {
    if |x| == 0 then [] else Decrypt(c, key, x[..|x| - 1]) + [DecryptByte(c, key, |x| - 1, x[|x| - 1])]
  }

  /** Byte i of a ciphertext depends only on plaintext byte i and its position. */
  lemma {:induction false} EncryptBytes(c: CipherId, key: seq<byte>, p: seq<byte>)
    ensures forall i :: 0 <= i < |p| ==> Encrypt(c, key, p)[i] == EncryptByte(c, key, i, p[i])
    decreases |p|
  {
    if |p| > 0 {
      EncryptBytes(c, key, p[..|p| - 1]);
    }
  }

  /** Byte i of a decrypted flake depends only on ciphertext byte i and its position. */
  lemma {:induction false} DecryptBytes(c: CipherId, key: seq<byte>, x: seq<byte>)
    ensures forall i :: 0 <= i < |x| ==> Decrypt(c, key, x)[i] == DecryptByte(c, key, i, x[i])
    decreases |x|
  {
    if |x| > 0 {
      DecryptBytes(c, key, x[..|x| - 1]);
    }
  }

  /** Decrypting a flake encrypted under the same cipher and key returns the plaintext. */
  lemma DecryptEncrypt(c: CipherId, key: seq<byte>, p: seq<byte>)
    ensures Decrypt(c, key, Encrypt(c, key, p)) == p
  {
    EncryptBytes(c, key, p);
    DecryptBytes(c, key, Encrypt(c, key, p));
    forall i | 0 <= i < |p|
      ensures Decrypt(c, key, Encrypt(c, key, p))[i] == p[i]
    {
      DecryptEncryptByte(c, key, i, p[i]);
    }
  }
}
