// AES-256-GCM (sections 7.1 and 7.2 of NIST SP 800-38D), HKDF (RFC 5869) and
// the AESGCM object of the cryptography package. The keystream, the tag and
// the key derivation are uninterpreted: a Suite fixes one of each.
module Aead {
  import opened Wrappers
  import opened Bytes

  const KEY_LEN: nat := 32
  const NONCE_LEN: nat := 12
  const TAG_LEN: nat := 16

  type Key = k: bytes | |k| == KEY_LEN witness seq(KEY_LEN, _ => 0)
  type Nonce = n: bytes | |n| == NONCE_LEN witness seq(NONCE_LEN, _ => 0)
  type Tag = t: bytes | |t| == TAG_LEN witness seq(TAG_LEN, _ => 0)

  datatype Suite = Suite(
    keystream: (Key, Nonce, nat) -> byte,       // byte i of the counter-mode stream
    tag: (Key, Nonce, bytes, bytes) -> Tag,     // over (aad, ciphertext)
    hkdf: (bytes, bytes) -> Key)                // of (input key material, info)

  /** What everything sealed for one recipient in one go shares: the root key, the
      serialized header and the nonce inside it. */
  datatype Session = Session(key: Key, header: bytes, base: Nonce)

  /** Counter mode: each byte combined with the keystream byte of its position. */
  function Mask(s: Suite, k: Key, n: Nonce, text: bytes): (m: bytes)
    ensures |m| == |text|
  {
    seq<byte>(|text|, i requires 0 <= i < |text| => Xor(text[i], s.keystream(k, n, i)))
  }

  /** Authenticated encryption: ciphertext followed by the tag. */
  function Seal(s: Suite, k: Key, n: Nonce, aad: bytes, text: bytes): (ct: bytes)
    ensures |ct| == |text| + TAG_LEN
  {
    var c := Mask(s, k, n, text);
    c + s.tag(k, n, aad, c)
  }

  /** Authenticated decryption: recompute the tag and compare. */
  function Open(s: Suite, k: Key, n: Nonce, aad: bytes, ct: bytes): (r: Option<bytes>)
    ensures r.Some? ==> |ct| == |r.value| + TAG_LEN
  {
    if |ct| < TAG_LEN then None
    else
      var c := ct[..|ct| - TAG_LEN];
      if ct[|ct| - TAG_LEN..] == s.tag(k, n, aad, c) then Some(Mask(s, k, n, c)) else None
  }

  lemma MaskInvolutive(s: Suite, k: Key, n: Nonce, text: bytes)
    ensures Mask(s, k, n, Mask(s, k, n, text)) == text
  {
    var m := Mask(s, k, n, text);
    forall i | 0 <= i < |text| ensures Mask(s, k, n, m)[i] == text[i] {
      XorInvolutive(text[i], s.keystream(k, n, i));
    }
  }

  lemma OpenSealed(s: Suite, k: Key, n: Nonce, aad: bytes, text: bytes)
    ensures Open(s, k, n, aad, Seal(s, k, n, aad, text)) == Some(text)
  {
    var c := Mask(s, k, n, text);
    var ct := Seal(s, k, n, aad, text);
    assert ct[..|ct| - TAG_LEN] == c && ct[|ct| - TAG_LEN..] == s.tag(k, n, aad, c);
    MaskInvolutive(s, k, n, text);
  }

  /** What sealing puts out, in terms of the two primitives alone: bit j of byte i differs from the
      text's exactly where the keystream has a bit set, and the tag of all that stands behind it. */
  lemma SealMasksEveryBit(s: Suite, k: Key, n: Nonce, aad: bytes, text: bytes)
    ensures var ct := Seal(s, k, n, aad, text);
            && |ct| == |text| + 16
            && (forall i, j :: 0 <= i < |text| && 0 <= j < 8 ==>
                  (Bit(ct[i], j) <==> Bit(text[i], j) != Bit(s.keystream(k, n, i), j)))
            && ct[|text|..] == s.tag(k, n, aad, ct[..|text|])
  {
    hide Bit;
    var ct := Seal(s, k, n, aad, text);
    forall i, j | 0 <= i < |text| && 0 <= j < 8
      ensures Bit(ct[i], j) <==> Bit(text[i], j) != Bit(s.keystream(k, n, i), j)
    {
      XorBit(8, text[i], s.keystream(k, n, i), j);
    }
    assert ct[..|text|] == Mask(s, k, n, text);
  }

  /** A ciphertext taken to another key, nonce or associated data opens there exactly when the two
      tags of its bytes coincide. */
  lemma OpensElsewhereIff(s: Suite, k: Key, n: Nonce, aad: bytes, text: bytes, l: Key, m: Nonce, other: bytes)
    ensures var ct := Seal(s, k, n, aad, text);
            Open(s, l, m, other, ct).Some? <==> s.tag(l, m, other, ct[..|text|]) == s.tag(k, n, aad, ct[..|text|])
  {
    var ct := Seal(s, k, n, aad, text);
    assert ct[..|text|] == Mask(s, k, n, text) && ct[|text|..] == s.tag(k, n, aad, ct[..|text|]);
  }

  /** Under the same key and nonce, other associated data gives the text or nothing. */
  lemma OtherAadIsRefused(s: Suite, k: Key, n: Nonce, aad: bytes, text: bytes, other: bytes)
    ensures var ct := Seal(s, k, n, aad, text);
            Open(s, k, n, other, ct)
              == if s.tag(k, n, aad, ct[..|text|]) == s.tag(k, n, other, ct[..|text|]) then Some(text) else None
  {
    OpensElsewhereIff(s, k, n, aad, text, k, n, other);
    MaskInvolutive(s, k, n, text);
    var ct := Seal(s, k, n, aad, text);
    assert ct[..|text|] == Mask(s, k, n, text);
  }

  lemma OpenedIsSealed(s: Suite, k: Key, n: Nonce, aad: bytes, ct: bytes)
    requires Open(s, k, n, aad, ct).Some?
    ensures ct == Seal(s, k, n, aad, Open(s, k, n, aad, ct).value)
  {
    var c := ct[..|ct| - TAG_LEN];
    MaskInvolutive(s, k, n, c);
    assert ct == c + ct[|ct| - TAG_LEN..];
  }

  /** Opening gives a text exactly when the ciphertext is that text sealed. */
  lemma OpenIffSealed(s: Suite, k: Key, n: Nonce, aad: bytes, ct: bytes, text: bytes)
    ensures Open(s, k, n, aad, ct) == Some(text) <==> ct == Seal(s, k, n, aad, text)
  {
    OpenSealed(s, k, n, aad, text);
    if Open(s, k, n, aad, ct) == Some(text) {
      OpenedIsSealed(s, k, n, aad, ct);
    }
  }

  /** One use of the sealing operation. */
  datatype Sealed = Sealed(key: Key, nonce: Nonce, aad: bytes, ciphertext: bytes)

  /** AESGCM(key). The ghost fields record what was sealed and what opened. */
  class AesGcm {
    const suite: Suite
    const key: Key
    ghost var sealed: seq<Sealed>
    ghost var accepted: seq<Sealed>

    constructor (suite: Suite, key: Key)
      ensures this.suite == suite && this.key == key
      ensures sealed == [] && accepted == []
    {
      this.suite := suite;
      this.key := key;
      sealed, accepted := [], [];
    }

    method Encrypt(nonce: Nonce, text: bytes, aad: bytes) returns (ct: bytes)
      modifies this
      ensures ct == Seal(suite, key, nonce, aad, text)
      ensures |ct| == |text| + 16 && ct[|text|..] == suite.tag(key, nonce, aad, ct[..|text|])
      ensures forall i, j :: 0 <= i < |text| && 0 <= j < 8 ==>
        (Bit(ct[i], j) <==> Bit(text[i], j) != Bit(suite.keystream(key, nonce, i), j))
      ensures sealed == old(sealed) + [Sealed(key, nonce, aad, ct)]
      ensures accepted == old(accepted)
    {
      SealMasksEveryBit(suite, key, nonce, aad, text);
      ct := Seal(suite, key, nonce, aad, text);
      sealed := sealed + [Sealed(key, nonce, aad, ct)];
    }

    method Decrypt(nonce: Nonce, ct: bytes, aad: bytes) returns (r: Option<bytes>)
      modifies this
      ensures r == Open(suite, key, nonce, aad, ct)
      ensures accepted == old(accepted) + (if r.Some? then [Sealed(key, nonce, aad, ct)] else [])
      ensures sealed == old(sealed)
    {
      r := Open(suite, key, nonce, aad, ct);
      if r.Some? {
        accepted := accepted + [Sealed(key, nonce, aad, ct)];
      }
    }
  }
}
