/** The two roles of the NX handshake: section 4.5 of the Stratum V2 specification. */
module Roles {
  import opened Bytes
  import opened Cipher
  import opened Crypto
  import opened Handshake

  const SIGNATURE_MESSAGE_SIZE: nat := 74
  const ENCRYPTED_ELLSWIFT_SIZE: nat := ELLSWIFT_LEN + MAC_LEN
  const ENCRYPTED_SIGNATURE_SIZE: nat := SIGNATURE_MESSAGE_SIZE + MAC_LEN
  const RESPONSE_SIZE: nat := ELLSWIFT_LEN + ENCRYPTED_ELLSWIFT_SIZE + ENCRYPTED_SIGNATURE_SIZE
  const VERSION: nat := 0
  const U32: nat := 0x1_0000_0000

  // `SignatureNoiseMessage`
  datatype Certificate = Certificate(version: nat, validFrom: nat, notValidAfter: nat, signature: bytes) {

    static function FromBytes(b: bytes): Certificate
      requires |b| == SIGNATURE_MESSAGE_SIZE
    {
      Certificate(LeNat(b[0..2]), LeNat(b[2..6]), LeNat(b[6..10]), b[10..74])
    }

    // The signed fields as they stand in the message.
    function Fields(): bytes {
      LeBytes(version, 2) + LeBytes(validFrom, 4) + LeBytes(notValidAfter, 4)
    }

    predicate Covers(now: nat) {
      validFrom <= now && notValidAfter >= now
    }

    // Without a known authority nothing is checked.
    predicate VerifyWithNow(publicKey: bytes, authority: Option<bytes>, now: nat) {
      match authority
      case None => true
      case Some(a) => Covers(now) && Verify(signature, Sha256(Fields() + publicKey), a)
    }
  }

  // `get_signature`: fields, then the authority's signature over them and the static key.
  function SignatureMessage(validFrom: nat, notValidAfter: nat, staticKey: bytes, authority: bytes,
                            aux: bytes): (b: bytes)
    ensures |b| == SIGNATURE_MESSAGE_SIZE
  {
    var fields := Certificate(VERSION, validFrom, notValidAfter, []).Fields();
    fields + Sign(Sha256(fields + XOnly(staticKey)), authority, aux)
  }

  // The 74 bytes: version, both times least significant byte first, and the signature over these ten
  // bytes and the static key.
  lemma CertificateLayout(validFrom: nat, notValidAfter: nat, staticKey: bytes, authority: bytes, aux: bytes)
    requires validFrom < U32 && notValidAfter < U32
    ensures var b := SignatureMessage(validFrom, notValidAfter, staticKey, authority, aux);
            && |b| == 74 && b[..2] == [0, 0] && LeNat(b[2..6]) == validFrom && LeNat(b[6..10]) == notValidAfter
            && b[10..] == Sign(Sha256(b[..10] + XOnly(staticKey)), authority, aux)
  {
    var b := SignatureMessage(validFrom, notValidAfter, staticKey, authority, aux);
    Widths();
    LeNatOfLeBytes(validFrom, 4);
    LeNatOfLeBytes(notValidAfter, 4);
    assert b[..2] == LeBytes(0, 2) == [0, 0];
    assert b[2..6] == LeBytes(validFrom, 4);
    assert b[6..10] == LeBytes(notValidAfter, 4);
    var fields := Certificate(VERSION, validFrom, notValidAfter, []).Fields();
    assert b[..10] == fields;
  }

  lemma CertificateRoundTrip(validFrom: nat, notValidAfter: nat, staticKey: bytes, authority: bytes, aux: bytes)
    requires validFrom < U32 && notValidAfter < U32
    ensures var c := Certificate.FromBytes(SignatureMessage(validFrom, notValidAfter, staticKey, authority, aux));
            && c.validFrom == validFrom && c.notValidAfter == notValidAfter && c.version == VERSION
            && c.signature == Sign(Sha256(c.Fields() + XOnly(staticKey)), authority, aux)
  {
    var b := SignatureMessage(validFrom, notValidAfter, staticKey, authority, aux);
    assert Pow256(2) == 0x1_0000 && Pow256(4) == U32;
    LeNatOfLeBytes(VERSION, 2);
    LeNatOfLeBytes(validFrom, 4);
    LeNatOfLeBytes(notValidAfter, 4);
    assert b[0..2] == LeBytes(VERSION, 2);
    assert b[2..6] == LeBytes(validFrom, 4);
    assert b[6..10] == LeBytes(notValidAfter, 4);
    var fields := Certificate(VERSION, validFrom, notValidAfter, []).Fields();
    var signature := Sign(Sha256(fields + XOnly(staticKey)), authority, aux);
    SliceOfConcat(fields, signature);
    assert |fields| == 10 && |signature| == 64;
  }

  // The keys of a transport codec.
  datatype CodecKeys = CodecKeys(encrypt: bytes, decrypt: bytes)

  datatype Response = Response(sym: Sym, message: bytes, codec: CodecKeys)

  // How the last step ends, and the state it leaves the initiator in.
  datatype Finish =
    | Connected(sym: Sym, codec: CodecKeys)
    | AeadFailed(sym: Sym)
    | InvalidCertificate(sym: Sym, plaintext: bytes)

  // `step_0`: the initiator's encoded ephemeral key, and an empty payload.
  function Act1(s: Sym, e: bytes): (r: Option<(Sym, bytes)>)
    requires s.Valid()
    ensures r.Some? ==> r.value.0.Valid()
  {
    var r := s.MixHash(EllSwift(e)).EncryptAndHash([]);
    if r == None then None else Some((r.value.0, EllSwift(e)))
  }

  // The start of `step_1_with_now_rng`: the initiator's message, the ephemeral key and the first secret.
  function AgreeEphemeral(s: Sym, e: bytes, theirs: bytes): (r: Option<Sym>)
    requires s.Valid()
    ensures r.Some? ==> r.value.Valid() && r.value.n == 0
  {
    var first := s.MixHash(theirs).DecryptAndHash([]);
    if first == None then None
    else Some(first.value.0.MixHash(EllSwift(e)).MixKey(Ecdh(theirs, EllSwift(e), e, B)))
  }

  // Its middle: the static key, sealed, and the second secret.
  function AgreeStatic(s: Sym, staticKey: bytes, theirs: bytes): (r: Option<(Sym, bytes)>)
    requires s.Valid()
    ensures r.Some? ==> r.value.0.Valid() && r.value.0.n == 0
  {
    var sent := s.EncryptAndHash(EllSwift(staticKey));
    if sent == None then None
    else Some((sent.value.0.MixKey(Ecdh(theirs, EllSwift(staticKey), staticKey, B)), sent.value.1))
  }

  // Its end: the certificate, sealed, and the keys of the codec.
  function Certify(s: Sym, greeting: bytes, certificate: bytes): Option<Response>
    requires s.Valid()
  {
    var sent := s.EncryptAndHash(certificate);
    if sent == None then None else
    var (k1, k2) := Hkdf(sent.value.0.ck, []);
    Some(Response(sent.value.0, greeting + sent.value.1, CodecKeys(k2, k1)))
  }

  // `step_1_with_now_rng`
  function Act2(s: Sym, e: bytes, staticKey: bytes, authority: bytes, validity: nat, theirs: bytes, now: nat,
                aux: bytes)
    : Option<Response>
    requires s.Valid()
  {
    var s1 := AgreeEphemeral(s, e, theirs);
    if s1 == None then None else
    var s2 := AgreeStatic(s1.value, staticKey, theirs);
    if s2 == None then None else
    Certify(s2.value.0, EllSwift(e) + s2.value.1, SignatureMessage(now, now + validity, staticKey, authority, aux))
  }

  // `step_2_with_now`
  function Act3(s: Sym, e: bytes, authority: Option<bytes>, message: bytes, now: nat): Finish
    requires s.Valid() && |message| == RESPONSE_SIZE
  {
    var theirs := message[..ELLSWIFT_LEN];
    var s1 := s.MixHash(theirs).MixKey(Ecdh(EllSwift(e), theirs, e, A));
    var got1 := s1.DecryptAndHash(message[ELLSWIFT_LEN..ELLSWIFT_LEN + ENCRYPTED_ELLSWIFT_SIZE]);
    if got1 == None then AeadFailed(s1) else
    var staticKey := got1.value.1;
    var s2 := got1.value.0.MixKey(Ecdh(EllSwift(e), staticKey, e, A));
    var got2 := s2.DecryptAndHash(message[ELLSWIFT_LEN + ENCRYPTED_ELLSWIFT_SIZE..]);
    if got2 == None then AeadFailed(s2) else
    var plaintext := got2.value.1;
    if Certificate.FromBytes(plaintext).VerifyWithNow(XOnlyOfEllSwift(staticKey), authority, now) then
      var (k1, k2) := Hkdf(got2.value.0.ck, []);
      Connected(got2.value.0, CodecKeys(k1, k2))
    else InvalidCertificate(got2.value.0, plaintext)
  }

  datatype Log = Empty | Entry(before: Log, item: bytes)
  {
    function Then(item: bytes): Log {
      Entry(this, item)
    }
  }

  // The hash and the chaining key of section 4.5, from the state both roles start in, the parts hashed
  // and the secrets agreed.
  ghost function Transcript(start: Sym, parts: Log): (h: bytes)
    requires start.Valid()
    ensures |h| == HASH_LEN
  {
    if parts == Empty then start.h else Sha256(Transcript(start, parts.before) + parts.item)
  }

  ghost function Chain(start: Sym, secrets: Log): (ck: bytes)
    requires start.Valid()
    ensures |ck| == KEY_LEN
  {
    if secrets == Empty then start.ck else Hkdf(Chain(start, secrets.before), secrets.item).0
  }

  // All that goes into one handshake: the state both roles start in, which their constructors make
  // `INITIAL`, and what each of them draws, is given or reads off the clock.
  datatype Session = Session(
    start: Sym, initiatorKey: bytes, responderKey: bytes, staticKey: bytes, authorityKey: bytes,
    validity: nat, now: nat, aux: bytes)
  {
    predicate Valid() {
      Starts() && now + validity < U32
    }

    predicate Starts() {
      start.Valid() && start.k == None
    }

    function First(): Option<(Sym, bytes)>
      requires Starts()
    {
      Act1(start, initiatorKey)
    }

    function Second(): Option<Response>
      requires Starts()
    {
      Act2(start, responderKey, staticKey, authorityKey, validity, EllSwift(initiatorKey), now, aux)
    }

    function Certificate(): bytes {
      SignatureMessage(now, now + validity, staticKey, authorityKey, aux)
    }

    // The secrets both sides can compute.
    function EphemeralSecret(): bytes {
      Ecdh(EllSwift(initiatorKey), EllSwift(responderKey), initiatorKey, A)
    }

    function StaticSecret(): bytes {
      Ecdh(EllSwift(initiatorKey), EllSwift(staticKey), initiatorKey, A)
    }
  }

  lemma InitiatorStarts(x: Session)
    requires x.Starts()
    ensures x.First() ==
            Some((x.start.(h := Transcript(x.start, Empty.Then(EllSwift(x.initiatorKey)).Then([]))),
                  EllSwift(x.initiatorKey)))
  {
    var ours := EllSwift(x.initiatorKey);
    assert Transcript(x.start, Empty.Then(ours)) == x.start.MixHash(ours).h;
    assert Transcript(x.start, Empty.Then(ours).Then([])) == x.start.MixHash(ours).MixHash([]).h;
  }

  // The responder's states between the parts of its answer.
  ghost function AfterEphemeral(x: Session): (s: Sym)
    requires x.Starts()
    ensures s.Valid()
  {
    x.start.MixHash(EllSwift(x.initiatorKey)).MixHash([]).MixHash(EllSwift(x.responderKey)).MixKey(x.EphemeralSecret())
  }

  ghost function AfterStatic(x: Session): (s: Sym)
    requires x.Starts()
    ensures s.Valid()
  {
    AfterEphemeral(x).EncryptAndHash(EllSwift(x.staticKey)).value.0.MixKey(x.StaticSecret())
  }

  lemma ResponderMeets(x: Session)
    requires x.Starts()
    ensures AgreeEphemeral(x.start, x.responderKey, EllSwift(x.initiatorKey)) == Some(AfterEphemeral(x))
  {
    EcdhCommutes(x.initiatorKey, x.responderKey);
  }

  lemma ResponderIntroduces(x: Session)
    requires x.Starts()
    ensures var sent := AfterEphemeral(x).EncryptAndHash(EllSwift(x.staticKey));
            && sent.Some? && |sent.value.1| == ENCRYPTED_ELLSWIFT_SIZE
            && AgreeStatic(AfterEphemeral(x), x.staticKey, EllSwift(x.initiatorKey)) ==
               Some((AfterStatic(x), sent.value.1))
  {
    EcdhCommutes(x.initiatorKey, x.staticKey);
  }

  lemma ResponderCertifies(s: Sym, greeting: bytes, certificate: bytes) returns (sealed: bytes)
    requires s.Valid() && s.cipher.Some? && s.n < U64_MAX && |certificate| == SIGNATURE_MESSAGE_SIZE
    ensures var r := Certify(s, greeting, certificate);
            && r.Some? && |sealed| == ENCRYPTED_SIGNATURE_SIZE && r.value.message == greeting + sealed
            && s.EncryptAndHash(certificate) == Some((r.value.sym, sealed))
            && (r.value.codec.decrypt, r.value.codec.encrypt) == Hkdf(r.value.sym.ck, [])
  {
    sealed := s.EncryptAndHash(certificate).value.1;
  }

  lemma Act2Chains(s: Sym, s1: Sym, s2: Sym, sealedStatic: bytes, e: bytes, staticKey: bytes, authority: bytes,
                   validity: nat, theirs: bytes, now: nat, aux: bytes)
    requires s.Valid()
    requires AgreeEphemeral(s, e, theirs) == Some(s1)
    requires AgreeStatic(s1, staticKey, theirs) == Some((s2, sealedStatic))
    ensures Act2(s, e, staticKey, authority, validity, theirs, now, aux) ==
            Certify(s2, EllSwift(e) + sealedStatic, SignatureMessage(now, now + validity, staticKey, authority, aux))
  {
  }

  lemma ResponderConcludes(x: Session)
    requires x.Starts()
    ensures var sealedStatic := AfterEphemeral(x).EncryptAndHash(EllSwift(x.staticKey)).value.1;
            x.Second() == Certify(AfterStatic(x), EllSwift(x.responderKey) + sealedStatic, x.Certificate())
  {
    hide Hkdf, Sha256, Seal, Ecdh, EllSwift, SignatureMessage, NonceBytes;
    ResponderMeets(x);
    ResponderIntroduces(x);
    Act2Chains(x.start, AfterEphemeral(x), AfterStatic(x),
               AfterEphemeral(x).EncryptAndHash(EllSwift(x.staticKey)).value.1,
               x.responderKey, x.staticKey, x.authorityKey, x.validity, EllSwift(x.initiatorKey), x.now, x.aux);
  }

  // What the two sealed parts are: the static key under the first key and the hash of what was said
  // before it, the certificate under the second key and the hash with the sealed static key.
  ghost predicate Bound(x: Session, sealedStatic: bytes, sealedCertificate: bytes)
    requires x.Starts()
  {
    && Seal(Hkdf(Chain(x.start, Empty), x.EphemeralSecret()).1, Zeros(12),
            Transcript(x.start, Spoken(x, []).before), EllSwift(x.staticKey)) == Some(sealedStatic)
    && Seal(Hkdf(Chain(x.start, Secrets(x).before), x.StaticSecret()).1, Zeros(12),
            Transcript(x.start, Spoken(x, sealedStatic)), x.Certificate()) == Some(sealedCertificate)
  }

  lemma FirstNonce(nonce: bytes)
    ensures NonceOf(nonce, 0) ==> nonce == Zeros(12)
  {
    if NonceOf(nonce, 0) {
      LeBytesOfLeNat(nonce[4..]);
      assert LeBytes(0, 8) == Zeros(8);
      assert nonce == nonce[..4] + nonce[4..];
    }
  }

  lemma PartsAreBound(x: Session, sealedStatic: bytes, sealedCertificate: bytes, sym: Sym)
    requires x.Starts() && sealedStatic == AfterEphemeral(x).EncryptAndHash(EllSwift(x.staticKey)).value.1
    requires AfterEphemeral(x).EncryptAndHash(EllSwift(x.staticKey)).Some?
    requires AfterStatic(x).EncryptAndHash(x.Certificate()) == Some((sym, sealedCertificate))
    ensures Bound(x, sealedStatic, sealedCertificate)
  {
    hide Hkdf, Sha256, Seal, NonceBytes, NonceOf, SignatureMessage, Sym.EncryptAndHash;
    EphemeralTranscript(x);
    StaticTranscript(x);
    PartsBound(AfterEphemeral(x), EllSwift(x.staticKey));
    PartsBound(AfterStatic(x), x.Certificate());
    KeysMixed(x);
    forall nonce ensures NonceOf(nonce, 0) ==> nonce == Zeros(12) {
      FirstNonce(nonce);
    }
  }

  // The cipher keys of the two parts.
  lemma KeysMixed(x: Session)
    requires x.Starts()
    ensures var s := AfterEphemeral(x); s.n == 0 && s.k == Some(Hkdf(Chain(x.start, Empty), x.EphemeralSecret()).1)
    ensures var s := AfterStatic(x);
            s.n == 0 && s.k == Some(Hkdf(Chain(x.start, Secrets(x).before), x.StaticSecret()).1)
  {
    EphemeralTranscript(x);
  }

  // The responder always answers, with a message of the expected size.
  lemma ResponderAnswers(x: Session) returns (sealedStatic: bytes, sealedCertificate: bytes)
    requires x.Starts()
    ensures x.Second().Some?
    ensures AfterEphemeral(x).EncryptAndHash(EllSwift(x.staticKey)).value.1 == sealedStatic
    ensures AfterStatic(x).EncryptAndHash(x.Certificate()) == Some((x.Second().value.sym, sealedCertificate))
    ensures Bound(x, sealedStatic, sealedCertificate)
    ensures |sealedStatic| == ENCRYPTED_ELLSWIFT_SIZE && |sealedCertificate| == ENCRYPTED_SIGNATURE_SIZE
    ensures x.Second().value.message == EllSwift(x.responderKey) + sealedStatic + sealedCertificate
    ensures (x.Second().value.codec.decrypt, x.Second().value.codec.encrypt) == Hkdf(x.Second().value.sym.ck, [])
  {
    ResponderIntroduces(x);
    ResponderConcludes(x);
    sealedStatic := AfterEphemeral(x).EncryptAndHash(EllSwift(x.staticKey)).value.1;
    sealedCertificate := ResponderCertifies(AfterStatic(x), EllSwift(x.responderKey) + sealedStatic, x.Certificate());
    PartsAreBound(x, sealedStatic, sealedCertificate, x.Second().value.sym);
  }

  // Its final hash and chaining key are the ones the transcript and the secrets determine.
  ghost function Spoken(x: Session, sealedStatic: bytes): Log {
    Empty.Then(EllSwift(x.initiatorKey)).Then([]).Then(EllSwift(x.responderKey)).Then(sealedStatic)
  }

  ghost function Secrets(x: Session): Log {
    Empty.Then(x.EphemeralSecret()).Then(x.StaticSecret())
  }

  lemma EphemeralTranscript(x: Session)
    requires x.Starts()
    ensures AfterEphemeral(x).h == Transcript(x.start, Spoken(x, []).before)
    ensures AfterEphemeral(x).ck == Chain(x.start, Secrets(x).before)
  {
    var first := Empty.Then(EllSwift(x.initiatorKey));
    assert Transcript(x.start, first) == x.start.MixHash(first.item).h;
    assert Transcript(x.start, first.Then([])) == x.start.MixHash(first.item).MixHash([]).h;
  }

  lemma StaticTranscript(x: Session)
    requires x.Starts()
    ensures var sealedStatic := AfterEphemeral(x).EncryptAndHash(EllSwift(x.staticKey)).value.1;
            && AfterStatic(x).h == Transcript(x.start, Spoken(x, sealedStatic))
            && AfterStatic(x).ck == Chain(x.start, Secrets(x))
  {
    EphemeralTranscript(x);
  }

  // The initiator reaches the same state, and looks at the certificate that was sent.
  lemma InitiatorFollows(x: Session, authority: Option<bytes>, now: nat)
    requires x.Starts() && x.Second().Some? && |x.Second().value.message| == RESPONSE_SIZE
    ensures var s, response := x.First().value.0, x.Second().value;
            Act3(s, x.initiatorKey, authority, response.message, now) ==
            if Certificate.FromBytes(x.Certificate()).VerifyWithNow(XOnly(x.staticKey), authority, now)
            then Connected(response.sym, CodecKeys(response.codec.decrypt, response.codec.encrypt))
            else InvalidCertificate(response.sym, x.Certificate())
  {
    hide Bound;
    var sealedStatic, sealedCertificate := ResponderAnswers(x);
    var message := x.Second().value.message;
    assert message[..ELLSWIFT_LEN] == EllSwift(x.responderKey);
    assert message[ELLSWIFT_LEN..ELLSWIFT_LEN + ENCRYPTED_ELLSWIFT_SIZE] == sealedStatic;
    assert message[ELLSWIFT_LEN + ENCRYPTED_ELLSWIFT_SIZE..] == sealedCertificate;
    EncryptThenDecrypt(AfterEphemeral(x), EllSwift(x.staticKey));
    EncryptThenDecrypt(AfterStatic(x), x.Certificate());
  }

  lemma ResponderTranscript(x: Session, sealedStatic: bytes, sealedCertificate: bytes, sym: Sym)
    requires x.Starts() && sealedStatic == AfterEphemeral(x).EncryptAndHash(EllSwift(x.staticKey)).value.1
    requires AfterStatic(x).EncryptAndHash(x.Certificate()) == Some((sym, sealedCertificate))
    ensures sym.h == Transcript(x.start, Spoken(x, sealedStatic).Then(sealedCertificate)) &&
            sym.ck == Chain(x.start, Secrets(x))
  {
    StaticTranscript(x);
  }

  // The signature in the certificate verifies under an authority's key.
  ghost predicate SignedBy(x: Session, authority: bytes) {
    var b := x.Certificate();
    Verify(b[10..], Sha256(b[..10] + XOnly(x.staticKey)), authority)
  }

  // An initiator that knows no authority, or one that signed the certificate, within its time.
  ghost predicate Trusts(x: Session, authority: Option<bytes>, now: nat) {
    authority == None || (x.now <= now <= x.now + x.validity && SignedBy(x, authority.value))
  }

  lemma FieldsRead(b: bytes)
    requires |b| == SIGNATURE_MESSAGE_SIZE
    ensures Certificate.FromBytes(b).Fields() == b[..10] && Certificate.FromBytes(b).signature == b[10..]
  {
    LeBytesOfLeNat(b[0..2]);
    LeBytesOfLeNat(b[2..6]);
    LeBytesOfLeNat(b[6..10]);
  }

  lemma CertificateAccepted(x: Session, authority: Option<bytes>, now: nat)
    requires x.Valid()
    ensures Certificate.FromBytes(x.Certificate()).VerifyWithNow(XOnly(x.staticKey), authority, now) <==>
            Trusts(x, authority, now)
    ensures SignedBy(x, XOnly(x.authorityKey))
  {
    hide LeNat, LeBytes, Certificate.Fields, SignatureMessage, Certificate.FromBytes;
    CertificateRoundTrip(x.now, x.now + x.validity, x.staticKey, x.authorityKey, x.aux);
    CertificateLayout(x.now, x.now + x.validity, x.staticKey, x.authorityKey, x.aux);
    FieldsRead(x.Certificate());
  }

  // The handshake on unaltered messages, for all keys: both sides end in the same state, fixed by
  // the transcript and the agreed secrets, with crossed codec keys; and the initiator accepts
  // exactly when it knows no authority, or one that signed the certificate, within its time. The
  // responder's own authority did.
  lemma HandshakeAgrees(x: Session, authority: Option<bytes>, now: nat)
    returns (sealedStatic: bytes, sealedCertificate: bytes, finish: Finish)
    requires x.Valid()
    ensures x.First().Some? && x.Second().Some? && |x.Second().value.message| == RESPONSE_SIZE
    ensures finish == Act3(x.First().value.0, x.initiatorKey, authority, x.Second().value.message, now)
    ensures finish == if Trusts(x, authority, now)
                      then Connected(x.Second().value.sym,
                                     CodecKeys(x.Second().value.codec.decrypt, x.Second().value.codec.encrypt))
                      else InvalidCertificate(x.Second().value.sym, x.Certificate())
    ensures SignedBy(x, XOnly(x.authorityKey))
    ensures |x.Second().value.message| == 234
    ensures x.Second().value.message == EllSwift(x.responderKey) + sealedStatic + sealedCertificate
    ensures Bound(x, sealedStatic, sealedCertificate)
    ensures x.Second().value.sym.h ==
            Transcript(x.start, Spoken(x, sealedStatic).Then(sealedCertificate))
    ensures x.Second().value.sym.ck == Chain(x.start, Secrets(x))
    ensures (x.Second().value.codec.decrypt, x.Second().value.codec.encrypt) == Hkdf(Chain(x.start, Secrets(x)), [])
  {
    hide SignedBy, Trusts, Bound;
    sealedStatic, sealedCertificate := ResponderAnswers(x);
    ResponderTranscript(x, sealedStatic, sealedCertificate, x.Second().value.sym);
    InitiatorStarts(x);
    InitiatorFollows(x, authority, now);
    CertificateAccepted(x, authority, now);
    finish := Act3(x.First().value.0, x.initiatorKey, authority, x.Second().value.message, now);
  }

  // A codec from the two keys, whose copies outside the ciphers are erased.
  method MakeCodec(encryptKey: bytes, decryptKey: bytes) returns (codec: NoiseCodec)
    ensures fresh(codec) && fresh(codec.encryptor) && fresh(codec.decryptor) && codec.Valid()
    ensures codec.encryptor.cipher == Some(encryptKey) && codec.decryptor.cipher == Some(decryptKey)
    ensures codec.encryptor.n == codec.decryptor.n == 0 && codec.encryptor.k == codec.decryptor.k == None
  {
    var encryptor := new CipherState(encryptKey);
    var decryptor := new CipherState(decryptKey);
    encryptor.EraseK();
    decryptor.EraseK();
    codec := new NoiseCodec(encryptor, decryptor);
  }

  // `copy_from_slice` into a region of a fixed array.
  method CopyRegion(out: array<byte>, at: nat, src: bytes)
    requires at + |src| <= out.Length
    modifies out
    ensures out[..] == old(out[..at]) + src + old(out[at + |src|..])
  {
    forall i | 0 <= i < |src| {
      out[at + i] := src[i];
    }
  }

  // The answer in its array, region by region.
  method FillResponse(ours: bytes, sealedStatic: bytes, sealedSignature: bytes) returns (out: bytes)
    requires |ours| == ELLSWIFT_LEN && |sealedStatic| == ENCRYPTED_ELLSWIFT_SIZE &&
             |sealedSignature| == ENCRYPTED_SIGNATURE_SIZE
    ensures out == ours + sealedStatic + sealedSignature
  {
    var a := new byte[234](_ => 0);
    CopyRegion(a, 0, ours);
    CopyRegion(a, ELLSWIFT_LEN, sealedStatic);
    CopyRegion(a, ELLSWIFT_LEN + ENCRYPTED_ELLSWIFT_SIZE, sealedSignature);
    out := a[..];
  }

  // `sign_with_rng`: the signature over the first ten bytes and the static key, written after them.
  method SignInto(message: array<byte>, staticKey: bytes, authority: bytes, aux: bytes)
    requires message.Length == SIGNATURE_MESSAGE_SIZE
    modifies message
    ensures message[..10] == old(message[..10])
    ensures message[10..] == Sign(Sha256(old(message[..10]) + XOnly(staticKey)), authority, aux)
  {
    var signature := Sign(Sha256(message[..10] + XOnly(staticKey)), authority, aux);
    ghost var fields := message[..10];
    for i := 0 to |signature|
      invariant message[..10] == fields && message[10..10 + i] == signature[..i]
    {
      message[10 + i] := signature[i];
    }
  }

  // `get_signature`
  method GetSignature(validFrom: nat, notValidAfter: nat, staticKey: bytes, authority: bytes, aux: bytes)
    returns (ret: bytes)
    ensures ret == SignatureMessage(validFrom, notValidAfter, staticKey, authority, aux)
  {
    var message := new byte[74](_ => 0);
    var version, from, after := LeBytes(VERSION, 2), LeBytes(validFrom, 4), LeBytes(notValidAfter, 4);
    CopyRegion(message, 0, version);
    CopyRegion(message, 2, from);
    CopyRegion(message, 6, after);
    assert message[..10] == version + from + after;
    SignInto(message, staticKey, authority, aux);
    ret := message[..];
    assert ret == message[..10] + message[10..];
  }

  class Initiator {
    const state: HandshakeState
    const e: bytes
    const responderAuthority: Option<bytes>

    // `new_with_rng`, given the key drawn
    constructor (e: bytes, responderAuthority: Option<bytes>)
      ensures fresh(state) && state.Valid() && state.Value() == INITIAL
      ensures this.e == e && this.responderAuthority == responderAuthority
    {
      this.e, this.responderAuthority := e, responderAuthority;
      state := new HandshakeState();
    }

    method Step0() returns (message: Option<bytes>)
      requires state.Valid() && state.n < U64_MAX
      modifies state
      ensures var act := Act1(old(state.Value()), e);
              && (act.Some? ==> message == Some(act.value.1) && state.Valid() && state.Value() == act.value.0)
              && (act == None ==> message == None)
    {
      var encoded := EllSwift(e);
      state.MixHash(encoded);
      var c := state.EncryptAndHash([]);
      message := if c == None then None else Some(encoded);
    }

    // The result and, when connected, the codec.
    method Step2(message: bytes, now: nat) returns (finish: Finish, codec: NoiseCodec?)
      requires state.Valid() && |message| == RESPONSE_SIZE
      modifies state
      ensures finish == Act3(old(state.Value()), e, responderAuthority, message, now)
      ensures state.Valid() && state.Value() == finish.sym
      ensures finish.Connected? <==> codec != null
      ensures codec != null ==> fresh(codec) && fresh(codec.encryptor) && fresh(codec.decryptor)
      ensures finish.Connected? ==>
                && codec.Valid() && codec.encryptor.n == codec.decryptor.n == 0
                && codec.encryptor.cipher == Some(finish.codec.encrypt)
                && codec.decryptor.cipher == Some(finish.codec.decrypt)
    {
      hide Hkdf, Sha256, Unseal, Ecdh, EllSwift, NonceBytes, XOnlyOfEllSwift, Certificate.VerifyWithNow,
           Certificate.FromBytes;
      codec := null;
      var ours := EllSwift(e);
      var theirs := message[..ELLSWIFT_LEN];
      state.MixHash(theirs);
      state.MixKey(Ecdh(ours, theirs, e, A));
      var staticKey := state.DecryptAndHash(message[ELLSWIFT_LEN..ELLSWIFT_LEN + ENCRYPTED_ELLSWIFT_SIZE]);
      if staticKey == None {
        return AeadFailed(state.Current()), null;
      }
      state.MixKey(Ecdh(ours, staticKey.value, e, A));
      var plaintext := state.DecryptAndHash(message[ELLSWIFT_LEN + ENCRYPTED_ELLSWIFT_SIZE..]);
      if plaintext == None {
        return AeadFailed(state.Current()), null;
      }
      var certificate := Certificate.FromBytes(plaintext.value);
      if certificate.VerifyWithNow(XOnlyOfEllSwift(staticKey.value), responderAuthority, now) {
        var k1, k2 := Hkdf2(state.ck, []);
        finish := Connected(state.Current(), CodecKeys(k1, k2));
        codec := MakeCodec(k1, k2);
      } else {
        finish := InvalidCertificate(state.Current(), plaintext.value);
      }
    }
  }

  class Responder {
    const state: HandshakeState
    const e: bytes
    const staticKey: bytes
    const authority: bytes
    const certValidity: nat

    constructor (e: bytes, staticKey: bytes, authority: bytes, certValidity: nat)
      ensures fresh(state) && state.Valid() && state.Value() == INITIAL
      ensures this.e == e && this.staticKey == staticKey && this.authority == authority &&
              this.certValidity == certValidity
    {
      this.e, this.staticKey, this.authority, this.certValidity := e, staticKey, authority, certValidity;
      state := new HandshakeState();
    }

    method AcceptEphemeral(theirs: bytes) returns (ok: bool)
      requires state.Valid() && state.n < U64_MAX
      modifies state
      ensures var s1 := AgreeEphemeral(old(state.Value()), e, theirs);
              ok == s1.Some? && (ok ==> state.Valid() && state.Value() == s1.value)
    {
      state.MixHash(theirs);
      var empty := state.DecryptAndHash([]);
      if empty == None {
        return false;
      }
      var ours := EllSwift(e);
      state.MixHash(ours);
      state.MixKey(Ecdh(theirs, ours, e, B));
      ok := true;
    }

    method SendStatic(theirs: bytes) returns (sealed: Option<bytes>)
      requires state.Valid() && state.n < U64_MAX
      modifies state
      ensures var s2 := AgreeStatic(old(state.Value()), staticKey, theirs);
              && (s2 == None ==> sealed == None)
              && (s2.Some? ==> sealed == Some(s2.value.1) && state.Valid() && state.Value() == s2.value.0)
    {
      var ours := EllSwift(staticKey);
      sealed := state.EncryptAndHash(ours);
      if sealed == None {
        return;
      }
      state.MixKey(Ecdh(theirs, ours, staticKey, B));
    }

    method SendCertificate(now: nat, aux: bytes) returns (sealed: Option<bytes>)
      requires state.Valid() && state.n < U64_MAX && now + certValidity < U32
      modifies state
      ensures var s3 := old(state.Value()).EncryptAndHash(SignatureMessage(now, now + certValidity, staticKey,
                                                                           authority, aux));
              && (s3 == None ==> sealed == None)
              && (s3.Some? ==> sealed == Some(s3.value.1) && state.Valid() && state.Value() == s3.value.0)
    {
      var signature := GetSignature(now, now + certValidity, staticKey, authority, aux);
      sealed := state.EncryptAndHash(signature);
    }

    // The answer and the codec, or nothing.
    method Step1(theirs: bytes, now: nat, aux: bytes) returns (message: Option<bytes>, codec: NoiseCodec?)
      requires state.Valid() && state.n < U64_MAX && now + certValidity < U32
      modifies state
      ensures var act := Act2(old(state.Value()), e, staticKey, authority, certValidity, theirs, now, aux);
              && (act == None ==> message == None && codec == null)
              && (act.Some? ==>
                    && message == Some(act.value.message) && state.Valid() && state.Value() == act.value.sym
                    && codec != null && codec.Valid() && codec.encryptor.n == codec.decryptor.n == 0
                    && fresh(codec) && fresh(codec.encryptor) && fresh(codec.decryptor)
                    && codec.encryptor.cipher == Some(act.value.codec.encrypt)
                    && codec.decryptor.cipher == Some(act.value.codec.decrypt))
    {
      message, codec := None, null;
      var ok := AcceptEphemeral(theirs);
      if !ok {
        return;
      }
      var sealedStatic := SendStatic(theirs);
      if sealedStatic == None {
        return;
      }
      var sealedSignature := SendCertificate(now, aux);
      if sealedSignature == None {
        return;
      }
      var out := FillResponse(EllSwift(e), sealedStatic.value, sealedSignature.value);
      var k1, k2 := Hkdf2(state.ck, []);
      codec := MakeCodec(k2, k1);
      message := Some(out);
    }
  }
}
