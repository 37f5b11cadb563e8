/** The symmetric state of the Noise handshake: sections 5.1 to 5.3 of the Noise Protocol Framework. */
module Handshake {
  import opened Bytes
  import opened Crypto

  const PROTOCOL_NAME_HASH: bytes := [
    46, 180, 120, 129, 32, 142, 158, 238, 31, 102, 159, 103, 198, 110, 231, 14,
    169, 234, 136, 9, 13, 80, 63, 232, 48, 220, 75, 200, 62, 41, 191, 16]

  const BLOCK_LEN: nat := 64

  function Xor(a: byte, b: byte): byte {
    (a as bv8 ^ b as bv8) as byte
  }

  // Section 2 of RFC 2104: the key, padded with zeros to one block, against a repeated byte.
  function KeyBlock(key: bytes, pad: byte): (b: bytes)
    requires |key| <= BLOCK_LEN
  {
    var block := key + Zeros(BLOCK_LEN - |key|);
    seq(BLOCK_LEN, i requires 0 <= i < BLOCK_LEN => Xor(block[i], pad))
  }

  function Hmac(key: bytes, data: bytes): (tag: bytes)
    requires |key| <= BLOCK_LEN
    ensures |tag| == HASH_LEN
  {
    Sha256(KeyBlock(key, 0x5c) + Sha256(KeyBlock(key, 0x36) + data))
  }

  // Sections 2.2 and 2.3 of RFC 5869, with no context: output block `i` for a pseudorandom key.
  function Expand(prk: bytes, i: nat): (t: bytes)
    requires |prk| == HASH_LEN && i < 256
    ensures i > 0 ==> |t| == HASH_LEN
    decreases prk, i
  {
    if i == 0 then [] else Hmac(prk, Expand(prk, i - 1) + [i as byte])
  }

  // Two keys from a chaining key and new key material.
  function Hkdf(ck: bytes, ikm: bytes): (keys: (bytes, bytes))
    requires |ck| == KEY_LEN
    ensures |keys.0| == |keys.1| == KEY_LEN
  {
    var prk := Hmac(ck, ikm);
    (Expand(prk, 1), Expand(prk, 2))
  }

  method PaddedKey(key: bytes, pad: byte) returns (block: array<byte>)
    requires |key| == KEY_LEN
    ensures fresh(block) && block[..] == KeyBlock(key, pad)
  {
    block := new byte[64](_ => Xor(0, pad));
    for i := 0 to 32
      invariant forall j :: 0 <= j < i ==> block[j] == Xor(key[j], pad)
      invariant forall j :: i <= j < 64 ==> block[j] == Xor(0, pad)
    {
      block[i] := Xor(key[i], pad);
    }
  }

  // A key of 32 bytes padded to a block, each byte against the same one.
  ghost predicate Padded(block: bytes, key: bytes, pad: bv8)
    requires |key| == KEY_LEN
  {
    && |block| == 64
    && (forall i :: 0 <= i < 32 ==> block[i] == (key[i] as bv8 ^ pad) as byte)
    && (forall i :: 32 <= i < 64 ==> block[i] == pad as byte)
  }

  lemma BlockPadded(key: bytes)
    requires |key| == KEY_LEN
    ensures Padded(KeyBlock(key, 0x36), key, 0x36) && Padded(KeyBlock(key, 0x5c), key, 0x5c)
  {
    assert Xor(0, 0x36) == 0x36 && Xor(0, 0x5c) == 0x5c;
  }

  // Whatever blocks are padded so, the tag is the outer hash over the inner one.
  lemma HmacOfBlocks(key: bytes, inner: bytes, outer: bytes, data: bytes)
    requires |key| == KEY_LEN && Padded(inner, key, 0x36) && Padded(outer, key, 0x5c)
    ensures Hmac(key, data) == Sha256(outer + Sha256(inner + data))
  {
    BlockPadded(key);
    assert inner == KeyBlock(key, 0x36) && outer == KeyBlock(key, 0x5c);
  }

  method HmacHash(key: bytes, data: bytes) returns (tag: bytes)
    requires |key| == KEY_LEN
    ensures tag == Hmac(key, data)
  {
    var ipad := PaddedKey(key, 0x36);
    var opad := PaddedKey(key, 0x5c);
    var temp := Sha256(ipad[..] + data);
    tag := Sha256(opad[..] + temp);
  }

  method Hkdf2(chainingKey: bytes, ikm: bytes) returns (out1: bytes, out2: bytes)
    requires |chainingKey| == KEY_LEN
    ensures (out1, out2) == Hkdf(chainingKey, ikm)
    ensures var prk := Hmac(chainingKey, ikm); out1 == Hmac(prk, [1]) && out2 == Hmac(prk, out1 + [2])
  {
    var tempKey := HmacHash(chainingKey, ikm);
    out1 := HmacHash(tempKey, [1]);
    out2 := HmacHash(tempKey, out1 + [2]);
    assert [] + [1 as byte] == [1];
    assert Expand(tempKey, 0) == [];
    assert Expand(tempKey, 1) == out1;
  }

  // The symmetric state as a value: hash, chaining key, key, counter, and the cipher's key.
  datatype Sym = Sym(h: bytes, ck: bytes, k: Option<bytes>, n: nat, cipher: Option<bytes>) {
    predicate Valid() {
      |h| == HASH_LEN && |ck| == KEY_LEN && k == cipher
    }

    function MixHash(data: bytes): (s: Sym)
      requires Valid()
      ensures s.Valid()
    {
      this.(h := Sha256(h + data))
    }

    function MixKey(ikm: bytes): (s: Sym)
      requires Valid()
      ensures s.Valid() && s.k.Some?
    {
      var (ck', key) := Hkdf(ck, ikm);
      Sym(h, ck', Some(key), 0, Some(key))
    }

    // With no key yet the text stays as it is.
    function EncryptAndHash(m: bytes): (r: Option<(Sym, bytes)>)
      requires Valid()
      ensures r.Some? ==> r.value.0.Valid()
    {
      match k
      case None => Some((MixHash(m), m))
      case Some(key) =>
        match Seal(key, NonceBytes(n), h, m)
        case None => None
        case Some(c) => Some((this.(n := n + 1).MixHash(c), c))
    }

    function DecryptAndHash(c: bytes): (r: Option<(Sym, bytes)>)
      requires Valid()
      ensures r.Some? ==> r.value.0.Valid()
    {
      match k
      case None => Some((MixHash(c), c))
      case Some(key) =>
        match Unseal(key, NonceBytes(n), h, c)
        case None => None
        case Some(m) => Some((this.(n := n + 1).MixHash(c), m))
    }
  }

  // With a key, a part is sealed under it, the counter's nonce and the hash so far, and the hash takes
  // in what goes out; without one it goes out as it is.
  ghost predicate SealedUnder(s: Sym, m: bytes, c: bytes, after: Sym)
    requires s.Valid()
  {
    && after == s.(h := Sha256(s.h + c), n := after.n)
    && (s.k == None ==> c == m && after.n == s.n)
    && (s.k.Some? ==>
          && after.n == s.n + 1
          && exists nonce :: NonceOf(nonce, s.n) && Seal(s.k.value, nonce, s.h, m) == Some(c))
  }

  // And opened under the same.
  ghost predicate OpenedUnder(s: Sym, c: bytes, m: bytes, after: Sym)
    requires s.Valid()
  {
    && after == s.(h := Sha256(s.h + c), n := after.n)
    && (s.k == None ==> c == m && after.n == s.n)
    && (s.k.Some? ==>
          && after.n == s.n + 1
          && exists nonce :: NonceOf(nonce, s.n) && Unseal(s.k.value, nonce, s.h, c) == Some(m))
  }

  lemma PartsBound(s: Sym, text: bytes)
    requires s.Valid() && s.n < 0x1_0000_0000_0000_0000
    ensures s.EncryptAndHash(text).Some? ==>
              SealedUnder(s, text, s.EncryptAndHash(text).value.1, s.EncryptAndHash(text).value.0)
    ensures s.DecryptAndHash(text).Some? ==>
              OpenedUnder(s, text, s.DecryptAndHash(text).value.1, s.DecryptAndHash(text).value.0)
  {
    hide NonceBytes, NonceOf;
    NonceLayout(s.n);
    assert NonceOf(NonceBytes(s.n), s.n);
  }

  const INITIAL: Sym := Sym(Sha256(PROTOCOL_NAME_HASH), PROTOCOL_NAME_HASH, None, 0, None)

  // Two sides in the same state stay in the same state, and the text comes through.
  lemma EncryptThenDecrypt(s: Sym, m: bytes)
    requires s.Valid() && |m| <= MAX_PLAINTEXT
    ensures var sent := s.EncryptAndHash(m);
            sent.Some? && s.DecryptAndHash(sent.value.1) == Some((sent.value.0, m))
    ensures s.k.Some? ==> |s.EncryptAndHash(m).value.1| == |m| + MAC_LEN
  {
  }

  // The handshake operations, on the fields both roles carry.
  class HandshakeState {
    var h: bytes
    var ck: bytes
    var k: Option<bytes>
    var n: nat
    var cipher: Option<bytes>

    ghost predicate Valid()
      reads this
    {
      Value().Valid()
    }

    ghost function Value(): Sym
      reads this
    {
      Current()
    }

    // The fields as a value.
    function Current(): Sym
      reads this
    {
      Sym(h, ck, k, n, cipher)
    }

    constructor ()
      ensures Valid() && Value() == INITIAL
    {
      k, n, cipher := None, 0, None;
      h, ck := Zeros(32), Zeros(32);
      new;
      InitializeSelf();
    }

    method InitializeSelf()
      modifies this
      ensures h == INITIAL.h && ck == INITIAL.ck && k == None && n == old(n) && cipher == old(cipher)
    {
      ck := PROTOCOL_NAME_HASH;
      h := Sha256(ck);
      k := None;
    }

    method InitializeKey(key: bytes)
      modifies this
      ensures h == old(h) && ck == old(ck) && n == 0 && k == cipher == Some(key)
    {
      n := 0;
      cipher := Some(key);
      k := Some(key);
    }

    method MixHash(data: bytes)
      requires Valid()
      modifies this`h
      ensures Valid() && Value() == old(Value()).MixHash(data)
    {
      h := Sha256(h + data);
    }

    method MixKey(ikm: bytes)
      requires Valid()
      modifies this
      ensures Valid() && Value() == old(Value()).MixKey(ikm)
      ensures (ck, k) == (Hkdf(old(ck), ikm).0, Some(Hkdf(old(ck), ikm).1)) && cipher == k && n == 0 && h == old(h)
    {
      var ck', tempK := Hkdf2(ck, ikm);
      ck := ck';
      InitializeKey(tempK);
    }

    // `encrypt_and_hash`, with the counter bumped first and taken back on failure.
    method EncryptAndHash(plaintext: bytes) returns (c: Option<bytes>)
      requires Valid() && n < 0xFFFF_FFFF_FFFF_FFFF
      modifies this
      ensures c.Some? ==> SealedUnder(old(Value()), plaintext, c.value, Value())
      ensures var r := old(Value()).EncryptAndHash(plaintext);
              && (r.Some? ==> Valid() && Value() == r.value.0 && c == Some(r.value.1))
              && (r == None ==> c == None && Value() == old(Value()))
    {
      hide NonceBytes, SealedUnder;
      PartsBound(Value(), plaintext);
      c := Some(plaintext);
      if k.Some? {
        var ad, nonce := h, NonceBytes(n);
        n := n + 1;
        c := Seal(cipher.value, nonce, ad, plaintext);
        if c == None {
          n := n - 1;
          return;
        }
      }
      MixHash(c.value);
    }

    method DecryptAndHash(ciphertext: bytes) returns (m: Option<bytes>)
      requires Valid() && n < 0xFFFF_FFFF_FFFF_FFFF
      modifies this
      ensures m.Some? ==> OpenedUnder(old(Value()), ciphertext, m.value, Value())
      ensures var r := old(Value()).DecryptAndHash(ciphertext);
              && (r.Some? ==> Valid() && Value() == r.value.0 && m == Some(r.value.1))
              && (r == None ==> m == None && Value() == old(Value()))
    {
      hide NonceBytes, OpenedUnder;
      PartsBound(Value(), ciphertext);
      m := Some(ciphertext);
      if k.Some? {
        var ad, nonce := h, NonceBytes(n);
        n := n + 1;
        m := Unseal(cipher.value, nonce, ad, ciphertext);
        if m == None {
          n := n - 1;
          return;
        }
      }
      MixHash(ciphertext);
    }
  }
}
