/** A whole connection: the handshake, then both directions at once, in any interleaving. */
module Connection {
  import opened Bytes
  import opened Crypto
  import opened Framing
  import opened Transport
  import opened Channel
  import opened Misdeclared
  import Roles

  datatype Duplex = Duplex(toResponder: Link, toInitiator: Link)

  datatype Direction = ToResponder | ToInitiator

  datatype Happening = Happening(direction: Direction, event: Event)

  function StepBoth(d: Duplex, h: Happening): Duplex {
    match h.direction
    case ToResponder => d.(toResponder := Step(d.toResponder, h.event))
    case ToInitiator => d.(toInitiator := Step(d.toInitiator, h.event))
  }

  function RunBoth(d: Duplex, hs: seq<Happening>): Duplex {
    if hs == [] then d else StepBoth(RunBoth(d, hs[..|hs| - 1]), hs[|hs| - 1])
  }

  // What one direction sees of an interleaving.
  function Seen(hs: seq<Happening>, direction: Direction): seq<Event> {
    if hs == [] then []
    else
      var before, last := Seen(hs[..|hs| - 1], direction), hs[|hs| - 1];
      if last.direction == direction then before + [last.event] else before
  }

  // The directions do not disturb each other.
  lemma {:induction false} DirectionsIndependent(d: Duplex, hs: seq<Happening>)
    ensures RunBoth(d, hs) ==
            Duplex(Run(d.toResponder, Seen(hs, ToResponder)), Run(d.toInitiator, Seen(hs, ToInitiator)))
  {
    if hs != [] {
      var before, last := hs[..|hs| - 1], hs[|hs| - 1];
      DirectionsIndependent(d, before);
      var seen := Seen(before, last.direction);
      assert (seen + [last.event])[..|seen|] == seen;
    }
  }

  // A decoder that waits for a handshake message of `msgLen` bytes takes exactly those bytes, hands
  // them out, and then asks for two.
  lemma HandshakeMessageRead(message: bytes)
    requires message != []
    ensures var asked := NextHandshake(|message|, Dec(0, [], []));
            && asked.outcome == Missing(|message|) && asked.dec.missing == |message|
            && NextHandshake(|message|, Fed(asked.dec, message)) ==
               Result(Dec(2, [], []), 0, Got(HandShake(message)))
  {
    assert [] + message == message;
  }

  const HINT_AFTER_HANDSHAKE: nat := 2

  // Both directions as the handshake leaves them.
  function Opened(initiator: Roles.CodecKeys, responder: Roles.CodecKeys): Duplex {
    Duplex(Fresh(initiator.encrypt, responder.decrypt, HINT_AFTER_HANDSHAKE),
           Fresh(responder.encrypt, initiator.decrypt, HINT_AFTER_HANDSHAKE))
  }

  // Both codecs of an unaltered handshake, whose keys are crossed.
  lemma Agreement(x: Roles.Session, authority: Option<bytes>, now: nat)
    requires x.Valid() && Roles.Trusts(x, authority, now)
    ensures x.First().Some? && x.Second().Some? && |x.Second().value.message| == Roles.RESPONSE_SIZE
    ensures var keys := x.Second().value.codec;
            Roles.Act3(x.First().value.0, x.initiatorKey, authority, x.Second().value.message, now) ==
            Roles.Connected(x.Second().value.sym, Roles.CodecKeys(keys.decrypt, keys.encrypt))
  {
    hide Roles.Act1, Roles.Act2, Roles.Act3;
    var _, _, _ := Roles.HandshakeAgrees(x, authority, now);
  }

  // The connection, whatever frames are sent: for all keys, an unaltered handshake whose certificate
  // the initiator trusts, and then any interleaving of sends, partial reads and decoder calls on the two
  // directions. Each delivers exactly the frames before its first false one.
  lemma SecureChannelExactly(x: Roles.Session, authority: Option<bytes>, now: nat, hs: seq<Happening>)
    requires x.Valid() && Roles.Trusts(x, authority, now)
    ensures x.First().Some? && x.Second().Some? && |x.Second().value.message| == Roles.RESPONSE_SIZE
    ensures var finish := Roles.Act3(x.First().value.0, x.initiatorKey, authority, x.Second().value.message, now);
            && finish.Connected?
            && var d := RunBoth(Opened(finish.codec, x.Second().value.codec), hs);
               && DeliveredExactly(d.toResponder, Accepted(Seen(hs, ToResponder)))
               && DeliveredExactly(d.toInitiator, Accepted(Seen(hs, ToInitiator)))
  {
    hide Roles.Act1, Roles.Act2, Roles.Act3, Run, DeliveredExactly;
    Agreement(x, authority, now);
    var theirs := x.Second().value.codec;
    DirectionsIndependent(Opened(Roles.CodecKeys(theirs.decrypt, theirs.encrypt), theirs), hs);
    EveryRunDeliversExactly(theirs.decrypt, HINT_AFTER_HANDSHAKE, Seen(hs, ToResponder));
    EveryRunDeliversExactly(theirs.encrypt, HINT_AFTER_HANDSHAKE, Seen(hs, ToInitiator));
  }

  // The frames sent in an interleaving declare their lengths.
  ghost predicate AllTruthful(hs: seq<Happening>) {
    forall i :: 0 <= i < |hs| && hs[i].event.Send? ==> hs[i].event.frame.WellFormed()
  }

  lemma {:induction false} TruthfulSeen(hs: seq<Happening>, direction: Direction)
    requires AllTruthful(hs)
    ensures Truthful(Seen(hs, direction))
  {
    if hs != [] {
      TruthfulSeen(hs[..|hs| - 1], direction);
    }
  }

  // With frames that declare their lengths, nothing ever fails and everything is in order.
  lemma SecureChannel(x: Roles.Session, authority: Option<bytes>, now: nat, hs: seq<Happening>)
    requires x.Valid() && Roles.Trusts(x, authority, now) && AllTruthful(hs)
    ensures x.First().Some? && x.Second().Some? && |x.Second().value.message| == Roles.RESPONSE_SIZE
    ensures var finish := Roles.Act3(x.First().value.0, x.initiatorKey, authority, x.Second().value.message, now);
            && finish.Connected?
            && var d := RunBoth(Opened(finish.codec, x.Second().value.codec), hs);
               && InOrder(d.toResponder, Accepted(Seen(hs, ToResponder)))
               && InOrder(d.toInitiator, Accepted(Seen(hs, ToInitiator)))
  {
    hide Roles.Act1, Roles.Act2, Roles.Act3, Run, InOrder, Truthful, AllTruthful;
    Agreement(x, authority, now);
    var theirs := x.Second().value.codec;
    DirectionsIndependent(Opened(Roles.CodecKeys(theirs.decrypt, theirs.encrypt), theirs), hs);
    TruthfulSeen(hs, ToResponder);
    TruthfulSeen(hs, ToInitiator);
    InOrderDelivery(theirs.decrypt, HINT_AFTER_HANDSHAKE, Seen(hs, ToResponder));
    InOrderDelivery(theirs.encrypt, HINT_AFTER_HANDSHAKE, Seen(hs, ToInitiator));
  }
}
