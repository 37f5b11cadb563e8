/** Two peers on the objects: the handshake through encoders and decoders, then any interleaving. */
module Peers {
  import opened Bytes
  import opened Crypto
  import opened Framing
  import opened Transport
  import opened Channel
  import opened Connection
  import opened Conduits
  import Cipher
  import Codec
  import Handshake
  import Misdeclared
  import Roles

  // A handshake message from an encoder to a decoder that was told to expect one of `msgLen` bytes:
  // the decoder asks for that many, is filled, and hands them out.
  method Deliver(e: Codec.NoiseEncoder, d: Codec.NoiseDecoder, message: bytes, msgLen: nat) returns (got: bytes)
    requires e.Valid() && d.Valid() && {e.noise, e.sv2} !! {d.noise, d.sv2}
    requires d.Value() == Dec(0, [], []) && |message| == msgLen > 0
    modifies e.noise, e.sv2, d, d.noise, d.sv2
    ensures got == message && e.Valid() && d.Valid() && d.Value() == Dec(HINT_AFTER_HANDSHAKE, [], [])
  {
    HandshakeMessageRead(message);
    var encoded := e.Encode(HandShake(message), Codec.HandShaking);
    var asked := d.NextFrame(Codec.NotInitialized(msgLen));
    d.Feed(encoded.wire);
    var outcome := d.NextFrame(Codec.NotInitialized(msgLen));
    got := outcome.frame.payload;
  }

  // The first message, from the initiator's step to the responder's decoder.
  method Greet(x: Roles.Session, initiator: Roles.Initiator, e: Codec.NoiseEncoder, d: Codec.NoiseDecoder)
    returns (heard: bytes)
    requires x.Starts() && initiator.state.Valid() && initiator.state.Value() == x.start &&
             initiator.e == x.initiatorKey && x.start.n == 0
    requires e.Valid() && d.Valid() && {e.noise, e.sv2} !! {d.noise, d.sv2} && d.Value() == Dec(0, [], [])
    modifies initiator.state, e.noise, e.sv2, d, d.noise, d.sv2
    ensures x.First().Some? && initiator.state.Valid() && initiator.state.Value() == x.First().value.0
    ensures heard == EllSwift(x.initiatorKey)
    ensures e.Valid() && d.Valid() && d.Value() == Dec(HINT_AFTER_HANDSHAKE, [], [])
  {
    hide Roles.Act1;
    Greeting(x);
    var hello := initiator.Step0();
    heard := Deliver(e, d, hello.value, ELLSWIFT_LEN);
  }

  // The second, from the responder's step to the initiator's decoder.
  method Reply(x: Roles.Session, responder: Roles.Responder, heard: bytes, e: Codec.NoiseEncoder, d: Codec.NoiseDecoder)
    returns (reply: bytes, codec: Cipher.NoiseCodec)
    requires x.Valid() && x.Second().Some? && heard == EllSwift(x.initiatorKey)
    requires |x.Second().value.message| == Roles.RESPONSE_SIZE
    requires responder.state.Valid() && responder.state.Value() == x.start && x.start.n == 0
    requires responder.e == x.responderKey && responder.staticKey == x.staticKey
    requires responder.authority == x.authorityKey && responder.certValidity == x.validity
    requires e.Valid() && d.Valid() && {e.noise, e.sv2} !! {d.noise, d.sv2} && d.Value() == Dec(0, [], [])
    modifies responder.state, e.noise, e.sv2, d, d.noise, d.sv2
    ensures reply == x.Second().value.message
    ensures codec.Valid() && fresh(codec.encryptor) && fresh(codec.decryptor) &&
            codec.encryptor.n == codec.decryptor.n == 0
    ensures codec.encryptor.cipher == Some(x.Second().value.codec.encrypt)
    ensures codec.decryptor.cipher == Some(x.Second().value.codec.decrypt)
    ensures e.Valid() && d.Valid() && d.Value() == Dec(HINT_AFTER_HANDSHAKE, [], [])
  {
    hide Roles.Act2;
    var answer, made := responder.Step1(heard, x.now, x.aux);
    codec := made;
    reply := Deliver(e, d, answer.value, Roles.RESPONSE_SIZE);
  }

  ghost predicate FromTheStart(x: Roles.Session) {
    x.Valid() && x.start == Handshake.INITIAL
  }

  method MakeRoles(x: Roles.Session, authority: Option<bytes>)
    returns (initiator: Roles.Initiator, responder: Roles.Responder)
    requires FromTheStart(x)
    ensures fresh(initiator.state) && fresh(responder.state) && initiator.state != responder.state && x.start.n == 0
    ensures initiator.state.Valid() && initiator.state.Value() == x.start
    ensures initiator.e == x.initiatorKey && initiator.responderAuthority == authority
    ensures responder.state.Valid() && responder.state.Value() == x.start
    ensures responder.e == x.responderKey && responder.staticKey == x.staticKey
    ensures responder.authority == x.authorityKey && responder.certValidity == x.validity
  {
    initiator := new Roles.Initiator(x.initiatorKey, authority);
    responder := new Roles.Responder(x.responderKey, x.staticKey, x.authorityKey, x.validity);
  }

  // The initiator's last step.
  method Conclude(x: Roles.Session, initiator: Roles.Initiator, reply: bytes, authority: Option<bytes>, now: nat)
    returns (codec: Cipher.NoiseCodec)
    requires FromTheStart(x)
    requires Roles.Trusts(x, authority, now)
    requires x.Starts() && x.First().Some? && initiator.state.Valid() && initiator.state.Value() == x.First().value.0
    requires initiator.e == x.initiatorKey && initiator.responderAuthority == authority
    requires x.Second().Some? && reply == x.Second().value.message
    modifies initiator.state
    ensures codec.Valid() && fresh(codec.encryptor) && fresh(codec.decryptor) &&
            codec.encryptor.n == codec.decryptor.n == 0
    ensures codec.encryptor.cipher == Some(x.Second().value.codec.decrypt)
    ensures codec.decryptor.cipher == Some(x.Second().value.codec.encrypt)
  {
    hide Roles.Act1, Roles.Act2, Roles.Act3, XOnly, Roles.Trusts;
    Agreement(x, authority, now);
    var finish, made := initiator.Step2(reply, now);
    codec := made;
  }

  // The buffers of the two ends, all different.
  ghost predicate Apart(e1: Codec.NoiseEncoder, d1: Codec.NoiseDecoder, e2: Codec.NoiseEncoder,
                        d2: Codec.NoiseDecoder) {
    d1 != d2 && {e1.noise, e1.sv2} !! {d1.noise, d1.sv2} !! {e2.noise, e2.sv2} !! {d2.noise, d2.sv2}
  }

  // Both messages.
  method Negotiate(x: Roles.Session, initiator: Roles.Initiator, responder: Roles.Responder,
                   e1: Codec.NoiseEncoder, d1: Codec.NoiseDecoder, e2: Codec.NoiseEncoder, d2: Codec.NoiseDecoder)
    returns (reply: bytes, codec: Cipher.NoiseCodec)
    requires x.Valid() && x.start.n == 0 && x.Second().Some? && |x.Second().value.message| == Roles.RESPONSE_SIZE
    requires initiator.state.Valid() && initiator.state.Value() == x.start && initiator.e == x.initiatorKey
    requires responder.state.Valid() && responder.state.Value() == x.start && initiator.state != responder.state
    requires responder.e == x.responderKey && responder.staticKey == x.staticKey
    requires responder.authority == x.authorityKey && responder.certValidity == x.validity
    requires e1.Valid() && d1.Valid() && e2.Valid() && d2.Valid() && Apart(e1, d1, e2, d2)
    requires d1.Value() == Dec(0, [], []) && d2.Value() == Dec(0, [], [])
    modifies initiator.state, responder.state
    modifies e1.noise, e1.sv2, d1, d1.noise, d1.sv2, e2.noise, e2.sv2, d2, d2.noise, d2.sv2
    ensures e1.Valid() && d1.Valid() && e2.Valid() && d2.Valid()
    ensures d1.Value() == Dec(HINT_AFTER_HANDSHAKE, [], []) && d2.Value() == Dec(HINT_AFTER_HANDSHAKE, [], [])
    ensures x.First().Some? && initiator.state.Valid() && initiator.state.Value() == x.First().value.0
    ensures reply == x.Second().value.message
    ensures codec.Valid() && fresh(codec.encryptor) && fresh(codec.decryptor) &&
            codec.encryptor.n == codec.decryptor.n == 0
    ensures codec.encryptor.cipher == Some(x.Second().value.codec.encrypt)
    ensures codec.decryptor.cipher == Some(x.Second().value.codec.decrypt)
  {
    hide Roles.Session.First, Roles.Session.Second, EllSwift;
    var heard := Greet(x, initiator, e1, d2);
    reply, codec := Reply(x, responder, heard, e2, d1);
  }

  // The whole handshake on the objects: two codecs with crossed keys and counters at zero, and decoders
  // ready for the first frame.
  method Connect(x: Roles.Session, authority: Option<bytes>, now: nat,
                 e1: Codec.NoiseEncoder, d1: Codec.NoiseDecoder, e2: Codec.NoiseEncoder, d2: Codec.NoiseDecoder)
    returns (mine: Cipher.NoiseCodec, theirs: Cipher.NoiseCodec)
    requires FromTheStart(x)
    requires Roles.Trusts(x, authority, now)
    requires e1.Valid() && d1.Valid() && e2.Valid() && d2.Valid() && Apart(e1, d1, e2, d2)
    requires d1.Value() == Dec(0, [], []) && d2.Value() == Dec(0, [], [])
    modifies e1.noise, e1.sv2, d1, d1.noise, d1.sv2, e2.noise, e2.sv2, d2, d2.noise, d2.sv2
    ensures e1.Valid() && d1.Valid() && e2.Valid() && d2.Valid()
    ensures d1.Value() == Dec(HINT_AFTER_HANDSHAKE, [], []) && d2.Value() == Dec(HINT_AFTER_HANDSHAKE, [], [])
    ensures mine.Valid() && theirs.Valid() && {mine.encryptor, mine.decryptor} !! {theirs.encryptor, theirs.decryptor}
    ensures mine.encryptor.cipher == theirs.decryptor.cipher && mine.decryptor.cipher == theirs.encryptor.cipher
    ensures mine.encryptor.n == mine.decryptor.n == theirs.encryptor.n == theirs.decryptor.n == 0
    ensures x.Valid() && x.Second().Some?
    ensures theirs.encryptor.cipher == Some(x.Second().value.codec.encrypt)
    ensures theirs.decryptor.cipher == Some(x.Second().value.codec.decrypt)
    ensures fresh(mine.encryptor) && fresh(mine.decryptor) && fresh(theirs.encryptor) && fresh(theirs.decryptor)
  {
    hide Roles.Session.First, Roles.Session.Second, Roles.Act3, EllSwift, Apart, Roles.Trusts;
    StartsValid(x);
    Agreement(x, authority, now);
    var initiator, responder := MakeRoles(x, authority);
    var reply;
    reply, theirs := Negotiate(x, initiator, responder, e1, d1, e2, d2);
    mine := Conclude(x, initiator, reply, authority, now);
  }

  lemma Greeting(x: Roles.Session)
    requires x.Starts()
    ensures x.First().Some? && x.First().value.1 == EllSwift(x.initiatorKey)
  {
    Roles.InitiatorStarts(x);
  }

  lemma StartsValid(x: Roles.Session)
    requires FromTheStart(x)
    ensures x.Valid()
  {
  }

  method MakeCodecs() returns (e: Codec.NoiseEncoder, d: Codec.NoiseDecoder)
    ensures fresh(d) && fresh(e.noise) && fresh(e.sv2) && fresh(d.noise) && fresh(d.sv2)
    ensures e.Valid() && d.Valid() && d.Value() == Dec(0, [], []) && {e.noise, e.sv2} !! {d.noise, d.sv2}
  {
    e := new Codec.NoiseEncoder();
    d := new Codec.NoiseDecoder();
  }

  // Both directions between two ends with crossed keys, as the handshake leaves them.
  method Open(mine: Cipher.NoiseCodec, theirs: Cipher.NoiseCodec, e1: Codec.NoiseEncoder, d1: Codec.NoiseDecoder,
              e2: Codec.NoiseEncoder, d2: Codec.NoiseDecoder, ghost keys: Roles.CodecKeys)
    returns (a: Conduit, b: Conduit)
    requires mine.Valid() && theirs.Valid() && {mine.encryptor, mine.decryptor} !! {theirs.encryptor, theirs.decryptor}
    requires theirs.encryptor.cipher == mine.decryptor.cipher == Some(keys.encrypt)
    requires theirs.decryptor.cipher == mine.encryptor.cipher == Some(keys.decrypt)
    requires mine.encryptor.n == mine.decryptor.n == theirs.encryptor.n == theirs.decryptor.n == 0
    requires e1.Valid() && d1.Valid() && e2.Valid() && d2.Valid() && Apart(e1, d1, e2, d2)
    requires d1.Value() == Dec(HINT_AFTER_HANDSHAKE, [], []) && d2.Value() == Dec(HINT_AFTER_HANDSHAKE, [], [])
    ensures fresh(a) && fresh(b) && a.Valid() && b.Valid() && Separate(a, b)
    ensures a.encoder == e1 && a.ours == mine && a.decoder == d2 && a.theirs == theirs
    ensures b.encoder == e2 && b.ours == theirs && b.decoder == d1 && b.theirs == mine
    ensures Duplex(a.Value(), b.Value()) == Opened(Roles.CodecKeys(keys.decrypt, keys.encrypt), keys)
  {
    a := new Conduit(e1, mine, d2, theirs);
    b := new Conduit(e2, theirs, d1, mine);
  }

  // The keys the responder of a session ends up with.
  ghost function Keys(x: Roles.Session, authority: Option<bytes>, now: nat): Roles.CodecKeys
    requires FromTheStart(x) && Roles.Trusts(x, authority, now)
  {
    Agreement(x, authority, now);
    x.Second().value.codec
  }

  // From nothing: encoders, decoders, two roles, the handshake, and then any interleaving. What came
  // out of either end is exactly the frames before the first false one.
  method Converse(x: Roles.Session, authority: Option<bytes>, now: nat, hs: seq<Happening>)
    returns (toResponder: seq<bytes>, toInitiator: seq<bytes>, ghost d: Duplex)
    requires FromTheStart(x) && Roles.Trusts(x, authority, now)
    requires var keys := Keys(x, authority, now);
             RoomFor(Opened(Roles.CodecKeys(keys.decrypt, keys.encrypt), keys), hs)
    ensures var keys := Keys(x, authority, now);
            d == RunBoth(Opened(Roles.CodecKeys(keys.decrypt, keys.encrypt), keys), hs)
    ensures toResponder == d.toResponder.got && toInitiator == d.toInitiator.got
    ensures Misdeclared.DeliveredExactly(d.toResponder, Accepted(Seen(hs, ToResponder)))
    ensures Misdeclared.DeliveredExactly(d.toInitiator, Accepted(Seen(hs, ToInitiator)))
    ensures AllTruthful(hs) ==>
              && InOrder(d.toResponder, Accepted(Seen(hs, ToResponder)))
              && InOrder(d.toInitiator, Accepted(Seen(hs, ToInitiator)))
  {
    hide FromTheStart, Roles.Trusts, RoomFor, RunBoth, Roles.Session.Second, Misdeclared.DeliveredExactly, InOrder,
         AllTruthful, Accepted;
    ghost var keys := Keys(x, authority, now);
    ConverseDelivers(x, authority, now, hs);
    var e1, d1 := MakeCodecs();
    var e2, d2 := MakeCodecs();
    var mine, theirs := Connect(x, authority, now, e1, d1, e2, d2);
    var a, b := Open(mine, theirs, e1, d1, e2, d2, keys);
    HintsFramed(keys);
    Replay(a, b, hs);
    d := Duplex(a.Value(), b.Value());
    toResponder, toInitiator := a.got, b.got;
  }

  lemma HintsFramed(keys: Roles.CodecKeys)
    ensures var d := Opened(Roles.CodecKeys(keys.decrypt, keys.encrypt), keys);
            Framed(d.toResponder) && Framed(d.toInitiator)
  {
  }

  lemma ConverseDelivers(x: Roles.Session, authority: Option<bytes>, now: nat, hs: seq<Happening>)
    requires FromTheStart(x) && Roles.Trusts(x, authority, now)
    ensures var keys := Keys(x, authority, now);
            var d := RunBoth(Opened(Roles.CodecKeys(keys.decrypt, keys.encrypt), keys), hs);
            && Misdeclared.DeliveredExactly(d.toResponder, Accepted(Seen(hs, ToResponder)))
            && Misdeclared.DeliveredExactly(d.toInitiator, Accepted(Seen(hs, ToInitiator)))
            && (AllTruthful(hs) ==>
                  && InOrder(d.toResponder, Accepted(Seen(hs, ToResponder)))
                  && InOrder(d.toInitiator, Accepted(Seen(hs, ToInitiator))))
  {
    hide Roles.Trusts, RunBoth, Roles.Session.Second, Roles.Session.First, Roles.Act3, Misdeclared.DeliveredExactly,
         InOrder;
    Agreement(x, authority, now);
    SecureChannelExactly(x, authority, now, hs);
    if AllTruthful(hs) { SecureChannel(x, authority, now, hs); }
  }
}
