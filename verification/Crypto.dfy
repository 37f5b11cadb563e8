/** The foreign cryptography, as functions of which only the laws below are known. */
module Crypto {
  import opened Bytes

  const MAC_LEN: nat := 16
  const KEY_LEN: nat := 32
  const HASH_LEN: nat := 32
  const ELLSWIFT_LEN: nat := 64
  const SIGNATURE_LEN: nat := 64
  // Longest plaintext of one AEAD record: section 2.8 of RFC 8439.
  const MAX_PLAINTEXT: nat := 274877906880

  // The roles of BIP 324 key agreement.
  datatype Party = A | B

  datatype Call =
    | Sha256Call(message: bytes)
    | SealCall(key: bytes, nonce: bytes, ad: bytes, plaintext: bytes)
    | UnsealCall(key: bytes, nonce: bytes, ad: bytes, ciphertext: bytes)
    | EllSwiftCall(secret: bytes)
    | XOnlyCall(secret: bytes)
    | XOnlyOfEllSwiftCall(encoding: bytes)
    | EcdhCall(encodingA: bytes, encodingB: bytes, secret: bytes, party: Party)
    | SignCall(digest: bytes, secret: bytes, aux: bytes)
    | VerifyCall(signature: bytes, digest: bytes, publicKey: bytes)

  // What the foreign code answers; no answer is a failure.
  type Answers = Call -> Option<bytes>

  function Ask(a: Answers, call: Call): Option<bytes> {
    a(call)
  }

  // Decryption undoes encryption under the same key, nonce and associated data.
  ghost predicate AeadLaws(a: Answers) {
    && (forall k, n, ad, m {:trigger Ask(a, SealCall(k, n, ad, m))} ::
          var c := Ask(a, SealCall(k, n, ad, m));
          && (c.Some? <==> |m| <= MAX_PLAINTEXT)
          && (c.Some? ==> |c.value| == |m| + MAC_LEN && Ask(a, UnsealCall(k, n, ad, c.value)) == Some(m)))
    && (forall k, n, ad, c {:trigger Ask(a, UnsealCall(k, n, ad, c))} ::
          var m := Ask(a, UnsealCall(k, n, ad, c));
          m.Some? ==> |c| == |m.value| + MAC_LEN)
  }

  // Hashing and the public-key operations always answer, with fixed lengths.
  ghost predicate LengthLaws(a: Answers) {
    && (forall m {:trigger Ask(a, Sha256Call(m))} ::
          Ask(a, Sha256Call(m)).Some? && |Ask(a, Sha256Call(m)).value| == HASH_LEN)
    && (forall x {:trigger Ask(a, EllSwiftCall(x))} ::
          Ask(a, EllSwiftCall(x)).Some? && |Ask(a, EllSwiftCall(x)).value| == ELLSWIFT_LEN)
    && (forall x {:trigger Ask(a, XOnlyCall(x))} ::
          Ask(a, XOnlyCall(x)).Some? && |Ask(a, XOnlyCall(x)).value| == KEY_LEN)
    && (forall e {:trigger Ask(a, XOnlyOfEllSwiftCall(e))} :: Ask(a, XOnlyOfEllSwiftCall(e)).Some?)
    && (forall e, f, x, party {:trigger Ask(a, EcdhCall(e, f, x, party))} :: Ask(a, EcdhCall(e, f, x, party)).Some?)
    && (forall d, x, r {:trigger Ask(a, SignCall(d, x, r))} ::
          Ask(a, SignCall(d, x, r)).Some? && |Ask(a, SignCall(d, x, r)).value| == SIGNATURE_LEN)
  }

  // Key agreement commutes, a signature verifies, and an encoding keeps the x-only key.
  ghost predicate KeyLaws(a: Answers)
    requires LengthLaws(a)
  {
    && (forall x {:trigger Ask(a, EllSwiftCall(x))} ::
          Ask(a, XOnlyOfEllSwiftCall(Ask(a, EllSwiftCall(x)).value)) == Ask(a, XOnlyCall(x)))
    && (forall x, y {:trigger Ask(a, EllSwiftCall(x)), Ask(a, EllSwiftCall(y))} ::
          var e, f := Ask(a, EllSwiftCall(x)).value, Ask(a, EllSwiftCall(y)).value;
          Ask(a, EcdhCall(e, f, x, A)) == Ask(a, EcdhCall(e, f, y, B)))
    && (forall d, x, r {:trigger Ask(a, SignCall(d, x, r))} ::
          Ask(a, VerifyCall(Ask(a, SignCall(d, x, r)).value, d, Ask(a, XOnlyCall(x)).value)).Some?)
  }

  // A trivial instance: the laws are consistent.
  function TrivialAnswer(call: Call): Option<bytes> {
    match call
    case SealCall(_, _, _, m) => if |m| <= MAX_PLAINTEXT then Some(m + Zeros(MAC_LEN)) else None
    case UnsealCall(_, _, _, c) => if |c| >= MAC_LEN then Some(c[..|c| - MAC_LEN]) else None
    case EllSwiftCall(_) => Some(Zeros(ELLSWIFT_LEN))
    case SignCall(_, _, _) => Some(Zeros(SIGNATURE_LEN))
    case _ => Some(Zeros(KEY_LEN))
  }

  lemma TrivialAead()
    ensures AeadLaws(TrivialAnswer)
  {
    forall k: bytes, n: bytes, ad: bytes, m: bytes | |m| <= MAX_PLAINTEXT
      ensures TrivialAnswer(UnsealCall(k, n, ad, TrivialAnswer(SealCall(k, n, ad, m)).value)) == Some(m)
    {
      assert (m + Zeros(MAC_LEN))[..|m|] == m;
    }
  }

  lemma TrivialLengths()
    ensures LengthLaws(TrivialAnswer)
  {
  }

  lemma TrivialKeys()
    requires LengthLaws(TrivialAnswer)
    ensures KeyLaws(TrivialAnswer)
  {
  }

  type Primitives = a: Answers | AeadLaws(a) && LengthLaws(a) && KeyLaws(a)
    witness (TrivialAead(); TrivialLengths(); TrivialKeys(); TrivialAnswer)

  // The foreign code of one deployment, whichever it is.
  const FOREIGN: Primitives

  function Sha256(m: bytes): (h: bytes)
    ensures |h| == HASH_LEN
  {
    Ask(FOREIGN, Sha256Call(m)).value
  }

  function Seal(key: bytes, nonce: bytes, ad: bytes, m: bytes): (c: Option<bytes>)
    ensures c.Some? <==> |m| <= MAX_PLAINTEXT
    ensures c.Some? ==> |c.value| == |m| + MAC_LEN
    ensures c.Some? ==> Unseal(key, nonce, ad, c.value) == Some(m)
  {
    Ask(FOREIGN, SealCall(key, nonce, ad, m))
  }

  function Unseal(key: bytes, nonce: bytes, ad: bytes, c: bytes): (m: Option<bytes>)
    ensures m.Some? ==> |c| == |m.value| + MAC_LEN
  {
    Ask(FOREIGN, UnsealCall(key, nonce, ad, c))
  }

  // ElligatorSwift encoding of the public key of a secret key.
  function EllSwift(secret: bytes): (e: bytes)
    ensures |e| == ELLSWIFT_LEN
    ensures XOnlyOfEllSwift(e) == XOnly(secret)
  {
    Ask(FOREIGN, EllSwiftCall(secret)).value
  }

  // x-only public key of a secret key.
  function XOnly(secret: bytes): (x: bytes)
    ensures |x| == KEY_LEN
  {
    Ask(FOREIGN, XOnlyCall(secret)).value
  }

  // x-only public key of an encoding.
  function XOnlyOfEllSwift(encoding: bytes): (x: bytes) {
    Ask(FOREIGN, XOnlyOfEllSwiftCall(encoding)).value
  }

  // The secret shared by the holders of two encodings, computed by one of them.
  function Ecdh(encodingA: bytes, encodingB: bytes, secret: bytes, party: Party): bytes {
    Ask(FOREIGN, EcdhCall(encodingA, encodingB, secret, party)).value
  }

  lemma EcdhCommutes(x: bytes, y: bytes)
    ensures Ecdh(EllSwift(x), EllSwift(y), x, A) == Ecdh(EllSwift(x), EllSwift(y), y, B)
  {
  }

  function Sign(digest: bytes, secret: bytes, aux: bytes): (s: bytes)
    ensures |s| == SIGNATURE_LEN
    ensures Verify(s, digest, XOnly(secret))
  {
    Ask(FOREIGN, SignCall(digest, secret, aux)).value
  }

  predicate Verify(signature: bytes, digest: bytes, publicKey: bytes) {
    Ask(FOREIGN, VerifyCall(signature, digest, publicKey)).Some?
  }

  // `nonce_to_bytes`: four zero bytes and the counter, little-endian.
  function NonceBytes(n: nat): bytes {
    seq(12, i requires 0 <= i < 12 => if i < 4 then 0 else Digit(n, i - 4))
  }

  // The twelve bytes of a counter: four zeros, and the counter least significant byte first. There
  // is one such string.
  ghost predicate NonceOf(nonce: bytes, n: nat) {
    |nonce| == 12 && nonce[..4] == Zeros(4) && LeNat(nonce[4..]) == n
  }

  lemma NonceLayout(n: nat)
    requires n < 0x1_0000_0000_0000_0000
    ensures forall nonce :: NonceOf(nonce, n) <==> nonce == NonceBytes(n)
  {
    Widths();
    LeNatOfLeBytes(n, 8);
    assert NonceBytes(n)[4..] == LeBytes(n, 8);
    forall nonce | NonceOf(nonce, n) ensures nonce == NonceBytes(n) {
      LeBytesOfLeNat(nonce[4..]);
      assert nonce == nonce[..4] + nonce[4..];
      assert NonceBytes(n) == Zeros(4) + LeBytes(n, 8);
    }
  }

  lemma NonceBytesInjective(m: nat, n: nat)
    requires m < 0x1_0000_0000_0000_0000 && n < 0x1_0000_0000_0000_0000
    requires NonceBytes(m) == NonceBytes(n)
    ensures m == n
  {
    NonceLayout(m);
    NonceLayout(n);
    assert NonceOf(NonceBytes(m), m) && NonceOf(NonceBytes(n), n);
  }

  // One transport record: no associated data.
  function SealRecord(key: bytes, n: nat, m: bytes): (c: bytes)
    requires |m| <= MAX_PLAINTEXT
    ensures |c| == |m| + MAC_LEN
    ensures OpenRecord(key, n, c) == Some(m)
  {
    Seal(key, NonceBytes(n), [], m).value
  }

  function OpenRecord(key: bytes, n: nat, c: bytes): (m: Option<bytes>)
    ensures m.Some? ==> |c| == |m.value| + MAC_LEN
  {
    Unseal(key, NonceBytes(n), [], c)
  }

  // A record is sealed and opened under its counter's nonce, and bound to nothing else.
  lemma RecordsBound(key: bytes, n: nat, nonce: bytes, m: bytes, c: bytes)
    requires n < 0x1_0000_0000_0000_0000 && NonceOf(nonce, n)
    ensures |m| <= MAX_PLAINTEXT ==> Seal(key, nonce, [], m) == Some(SealRecord(key, n, m))
    ensures OpenRecord(key, n, c) == Unseal(key, nonce, [], c)
  {
    hide NonceBytes;
    NonceLayout(n);
  }
}
