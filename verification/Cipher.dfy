/** AEAD cipher states and the transport codec built from two of them. */
module Cipher {
  import opened Bytes
  import opened Buffer
  import opened Crypto

  const U64_MAX: nat := 0xFFFF_FFFF_FFFF_FFFF

  // The window of a buffer replaced by other bytes, the cursor following them.
  function Replaced(s: Plain, window: bytes): Plain
    requires Allowed(s, Window)
  {
    s.(data := s.data[..s.start] + window)
  }

  // A buffer after an AEAD operation on its window that gave `result`.
  function AfterAead(s: Plain, result: Option<bytes>): Plain
    requires Allowed(s, Window)
  {
    if result.Some? then Replaced(s, result.value) else s
  }

  // Encryption in place: the window is overwritten and the tag appended after it.
  method SealInPlace(key: bytes, nonce: bytes, ad: bytes, buf: SystemBuffer)
    returns (ok: bool)
    requires buf.Valid() && Allowed(buf.Value(), Window)
    modifies buf
    ensures var sealed := Seal(key, nonce, ad, Output(old(buf.Value()), Window));
            ok == sealed.Some? && buf.Valid() && buf.Value() == AfterAead(old(buf.Value()), sealed)
  {
    var m := buf.AsRef();
    var sealed := Seal(key, nonce, ad, m);
    ok := sealed.Some?;
    if ok {
      var c := sealed.value;
      buf.WriteWindow(c[..|m|]);
      buf.ExtendFromSlice(c[|m|..]);
      assert c == c[..|m|] + c[|m|..];
    }
  }

  // Decryption in place: the message part of the window is overwritten and the tag cut off.
  method UnsealInPlace(key: bytes, nonce: bytes, ad: bytes, buf: SystemBuffer)
    returns (ok: bool)
    requires buf.Valid() && Allowed(buf.Value(), Window)
    modifies buf
    ensures var plain := Unseal(key, nonce, ad, Output(old(buf.Value()), Window));
            ok == plain.Some? && buf.Valid() && buf.Value() == AfterAead(old(buf.Value()), plain)
  {
    var c := buf.AsRef();
    var plain := Unseal(key, nonce, ad, c);
    ok := plain.Some?;
    if ok {
      var m := plain.value;
      buf.WriteWindow(m);
      buf.Truncate(|m|);
    }
  }

  class CipherState {
    var k: Option<bytes>
    var n: nat
    // the cipher instance, known by the key it was made from
    var cipher: Option<bytes>

    // `from_key_and_cipher`
    constructor (key: bytes)
      ensures k == Some(key) && n == 0 && cipher == Some(key)
    {
      k, n, cipher := Some(key), 0, Some(key);
    }

    // The cipher instance survives the erasure of the key.
    method EraseK()
      modifies this`k
      ensures k == None
    {
      k := None;
    }

    // The counter advances exactly when a record was produced.
    method EncryptWithAd(ad: bytes, buf: SystemBuffer) returns (ok: bool)
      requires buf.Valid() && Allowed(buf.Value(), Window)
      requires n < U64_MAX
      modifies this`n, buf
      ensures buf.Valid()
      ensures cipher == None ==> ok && n == old(n) && buf.Value() == old(buf.Value())
      ensures cipher.Some? ==>
                var sealed := Seal(cipher.value, NonceBytes(old(n)), ad, Output(old(buf.Value()), Window));
                && ok == sealed.Some?
                && n == (if ok then old(n) + 1 else old(n))
                && buf.Value() == AfterAead(old(buf.Value()), sealed)
    {
      var nonce := NonceBytes(n);
      n := n + 1;
      if cipher.Some? {
        ok := SealInPlace(cipher.value, nonce, ad, buf);
        if !ok {
          n := n - 1;
        }
      } else {
        n := n - 1;
        ok := true;
      }
    }

    method DecryptWithAd(ad: bytes, buf: SystemBuffer) returns (ok: bool)
      requires buf.Valid() && Allowed(buf.Value(), Window)
      requires n < U64_MAX
      modifies this`n, buf
      ensures buf.Valid()
      ensures cipher == None ==> ok && n == old(n) && buf.Value() == old(buf.Value())
      ensures cipher.Some? ==>
                var plain := Unseal(cipher.value, NonceBytes(old(n)), ad, Output(old(buf.Value()), Window));
                && ok == plain.Some?
                && n == (if ok then old(n) + 1 else old(n))
                && buf.Value() == AfterAead(old(buf.Value()), plain)
    {
      var nonce := NonceBytes(n);
      n := n + 1;
      if cipher.Some? {
        ok := UnsealInPlace(cipher.value, nonce, ad, buf);
        if !ok {
          n := n - 1;
        }
      } else {
        n := n - 1;
        ok := true;
      }
    }
  }

  // One cipher for what is sent, another for what is received.
  class NoiseCodec {
    const encryptor: CipherState
    const decryptor: CipherState

    ghost predicate Valid()
      reads this, encryptor, decryptor
    {
      encryptor != decryptor && encryptor.cipher.Some? && decryptor.cipher.Some?
    }

    constructor (encryptor: CipherState, decryptor: CipherState)
      ensures this.encryptor == encryptor && this.decryptor == decryptor
    {
      this.encryptor, this.decryptor := encryptor, decryptor;
    }

    method Encrypt(buf: SystemBuffer) returns (ok: bool)
      requires Valid() && buf.Valid() && Allowed(buf.Value(), Window)
      requires encryptor.n < U64_MAX
      modifies encryptor`n, buf
      ensures Valid() && buf.Valid()
      ensures var m := Output(old(buf.Value()), Window);
              && ok == (|m| <= MAX_PLAINTEXT)
              && (ok ==> encryptor.n == old(encryptor.n) + 1)
              && (ok ==> buf.Value() == Replaced(old(buf.Value()),
                           SealRecord(encryptor.cipher.value, old(encryptor.n), m)))
              && (!ok ==> encryptor.n == old(encryptor.n))
    {
      ok := encryptor.EncryptWithAd([], buf);
    }

    method Decrypt(buf: SystemBuffer) returns (ok: bool)
      requires Valid() && buf.Valid() && Allowed(buf.Value(), Window)
      requires decryptor.n < U64_MAX
      modifies decryptor`n, buf
      ensures Valid() && buf.Valid()
      ensures var m := OpenRecord(decryptor.cipher.value, old(decryptor.n), Output(old(buf.Value()), Window));
              && ok == m.Some?
              && decryptor.n == (if ok then old(decryptor.n) + 1 else old(decryptor.n))
              && buf.Value() == AfterAead(old(buf.Value()), m)
    {
      ok := decryptor.DecryptWithAd([], buf);
    }
  }
}
