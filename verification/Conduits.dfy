/** One direction on the objects, step by step in any order: encoder, codecs, pipe and decoder. */
module Conduits {
  import opened Bytes
  import opened Cipher
  import opened Codec
  import opened Crypto
  import opened Framing
  import opened Transport
  import opened Channel
  import opened Connection

  // The decoder's requests never go past what it can hold, whatever bytes arrive.
  ghost predicate Framed(l: Link) {
    l.failed ||
    (|l.pending| <= l.dec.missing &&
     ((l.dec.sv2 == [] && |l.dec.noise| + l.dec.missing <= ENCRYPTED_HEADER_SIZE) ||
      (|l.dec.sv2| == HEADER_SIZE && |l.dec.noise| + l.dec.missing <= EncryptedLen(DeclaredLen(l.dec.sv2)))))
  }

  // So no length subtraction underflows, under any keys and on any bytes.
  lemma FramedIsReady(l: Link)
    requires Framed(l) && !l.failed && |l.pending| == l.dec.missing
    ensures Ready(Fed(l.dec, l.pending))
  {
  }

  lemma StepKeepsFramed(l: Link, e: Event)
    requires Framed(l)
    ensures Framed(Step(l, e))
  {
    hide EncryptedLen, DeclaredLen, OpenFrom, Pack;
  }

  // Room in the 64-bit counters for a step.
  ghost predicate Room(l: Link, e: Event) {
    match e
    case Send(frame) =>
      ValidFrameHeader(frame);
      l.sendN + Records(frame.Raw()) <= U64_MAX
    case Read(_) => true
    case Poll => l.recvN + 1 + PieceCount(|l.dec.noise| + |l.pending|, CHUNK_SIZE) <= U64_MAX
  }

  class Conduit {
    const encoder: NoiseEncoder
    const ours: NoiseCodec
    const decoder: NoiseDecoder
    const theirs: NoiseCodec
    var wire: bytes
    var pending: bytes
    var got: seq<bytes>
    var failed: bool
    // the packets sent, and the decoder before a call that failed
    ghost var sent: seq<Packet>
    ghost var stuck: Dec
    ghost var stuckN: nat

    ghost predicate Valid()
      reads this, encoder, encoder.noise, encoder.sv2, ours, ours.encryptor, ours.decryptor
      reads decoder, decoder.noise, decoder.sv2, theirs, theirs.encryptor, theirs.decryptor
    {
      && {encoder.noise, encoder.sv2} !! {decoder.noise, decoder.sv2} && ours.encryptor != theirs.decryptor
      && encoder.Valid() && ours.Valid() && theirs.Valid() && (!failed ==> decoder.Valid())
    }

    ghost function Value(): Link
      requires Valid()
      reads this, encoder, encoder.noise, encoder.sv2, ours, ours.encryptor, ours.decryptor
      reads decoder, decoder.noise, decoder.sv2, theirs, theirs.encryptor, theirs.decryptor
    {
      Link(ours.encryptor.cipher.value, ours.encryptor.n, sent, wire, pending,
           if failed then stuck else decoder.Value(),
           theirs.decryptor.cipher.value, if failed then stuckN else theirs.decryptor.n, got, failed)
    }

    constructor (encoder: NoiseEncoder, ours: NoiseCodec, decoder: NoiseDecoder, theirs: NoiseCodec)
      requires {encoder.noise, encoder.sv2} !! {decoder.noise, decoder.sv2} && ours.encryptor != theirs.decryptor
      requires encoder.Valid() && ours.Valid() && theirs.Valid() && decoder.Valid()
      ensures this.encoder == encoder && this.ours == ours && this.decoder == decoder && this.theirs == theirs
      ensures Valid()
      ensures Value() == Link(ours.encryptor.cipher.value, ours.encryptor.n, [], [], [], decoder.Value(),
                              theirs.decryptor.cipher.value, theirs.decryptor.n, [], false)
    {
      this.encoder, this.ours, this.decoder, this.theirs := encoder, ours, decoder, theirs;
      wire, pending, got, failed, sent := [], [], [], false, [];
      stuck, stuckN := Dec(0, [], []), 0;
    }

    // `write_frame`: encodes a frame and writes it to the socket.
    method Send(frame: BuiltFrame)
      requires Valid() && Room(Value(), Event.Send(frame))
      modifies this, encoder.noise, encoder.sv2, ours.encryptor`n
      ensures Valid() && Value() == Step(old(Value()), Event.Send(frame))
    {
      hide SealFrame, Next, NoiseDecoder.Valid, NoiseDecoder.Value;
      ValidFrameHeader(frame);
      ghost var k := Pack(ours.encryptor.cipher.value, ours.encryptor.n, frame.Raw());
      var encoded := encoder.EncodeTransport(frame, ours);
      wire := wire + encoded.wire;
      sent := sent + [k];
    }

    // Some bytes arrive for the current request.
    method Read(count: nat)
      requires Valid() && Framed(Value())
      modifies this
      ensures Valid() && Value() == Step(old(Value()), Event.Read(count))
    {
      hide Next;
      if !failed {
        var k := Min(count, Min(decoder.missing - |pending|, |wire|));
        pending, wire := pending + wire[..k], wire[k..];
      }
    }

    // Fills the request and calls the decoder.
    method Call() returns (outcome: Outcome)
      requires Valid() && !failed && |pending| == decoder.missing && Ready(Fed(decoder.Value(), pending))
      requires theirs.decryptor.n + 1 + PieceCount(|decoder.Value().noise| + |pending|, CHUNK_SIZE) <= U64_MAX
      modifies decoder, decoder.noise, decoder.sv2, theirs.decryptor`n
      ensures encoder.Valid() && ours.Valid() && theirs.Valid()
      ensures var next := Next(theirs.decryptor.cipher.value, old(theirs.decryptor.n),
                               Fed(old(decoder.Value()), pending));
              && outcome == next.outcome
              && (!outcome.Failed? ==> decoder.Valid() && decoder.Value() == next.dec && theirs.decryptor.n == next.n)
    {
      hide Next, Ready;
      decoder.Feed(pending);
      outcome := decoder.NextFrame(Transporting(theirs));
    }

    // The decoder is called once its request is filled.
    method Poll()
      requires Valid() && Framed(Value()) && Room(Value(), Event.Poll)
      modifies this, decoder, decoder.noise, decoder.sv2, theirs.decryptor`n
      ensures Valid() && Value() == Step(old(Value()), Event.Poll)
    {
      hide Next, Ready, Framed, Pack, PieceCount, EncryptedLen, DeclaredLen, NoiseEncoder.Valid;
      if failed || |pending| != decoder.missing {
        return;
      }
      ghost var l := Value();
      FramedIsReady(l);
      stuck, stuckN := l.dec, l.recvN;
      var outcome := Call();
      match outcome {
        case Missing(_) => pending := [];
        case Got(frame) =>
          pending := [];
          got := got + [if frame.Sv2? then frame.frame.Raw() else frame.payload];
        case Failed => failed := true;
      }
    }

    method Perform(e: Event)
      requires Valid() && Framed(Value()) && Room(Value(), e)
      modifies this, encoder.noise, encoder.sv2, ours.encryptor`n, decoder, decoder.noise, decoder.sv2,
               theirs.decryptor`n
      ensures Valid() && Value() == Step(old(Value()), e) && Framed(Value())
      ensures ours.encryptor.cipher == old(ours.encryptor.cipher) &&
              theirs.decryptor.cipher == old(theirs.decryptor.cipher)
    {
      hide Step, Framed, Room;
      StepKeepsFramed(Value(), e);
      match e {
        case Send(frame) => Send(frame);
        case Read(count) => Read(count);
        case Poll => Poll();
      }
    }
  }

  // Two directions of one connection share no buffer and no half of a codec.
  ghost predicate Separate(a: Conduit, b: Conduit) {
    && a != b && a.decoder != b.decoder
    && {a.encoder.noise, a.encoder.sv2, a.decoder.noise, a.decoder.sv2} !!
       {b.encoder.noise, b.encoder.sv2, b.decoder.noise, b.decoder.sv2}
    && {a.ours.encryptor, a.theirs.decryptor} !! {b.ours.encryptor, b.theirs.decryptor}
  }

  // Room for every step of an interleaving.
  ghost predicate RoomFor(d: Duplex, hs: seq<Happening>) {
    forall i :: 0 <= i < |hs| ==> RoomAt(RunBoth(d, hs[..i]), hs[i])
  }

  ghost predicate RoomAt(d: Duplex, h: Happening) {
    Room(if h.direction == ToResponder then d.toResponder else d.toInitiator, h.event)
  }

  // A step of one direction leaves the other as it is.
  method Advance(a: Conduit, b: Conduit, e: Event)
    requires a.Valid() && b.Valid() && Separate(a, b) && Framed(a.Value()) && Room(a.Value(), e)
    modifies a, a.encoder.noise, a.encoder.sv2, a.ours.encryptor`n
    modifies a.decoder, a.decoder.noise, a.decoder.sv2, a.theirs.decryptor`n
    ensures a.Valid() && b.Valid() && Framed(a.Value())
    ensures a.Value() == Step(old(a.Value()), e) && b.Value() == old(b.Value())
  {
    hide Step, Framed, Room;
    a.Perform(e);
  }

  // The objects of both directions go through every interleaving as the step functions do.
  method Replay(a: Conduit, b: Conduit, hs: seq<Happening>)
    requires a.Valid() && b.Valid() && Separate(a, b) && Framed(a.Value()) && Framed(b.Value())
    requires RoomFor(Duplex(a.Value(), b.Value()), hs)
    modifies a, a.encoder.noise, a.encoder.sv2, a.ours.encryptor`n, a.decoder, a.decoder.noise, a.decoder.sv2
    modifies b, b.encoder.noise, b.encoder.sv2, b.ours.encryptor`n, b.decoder, b.decoder.noise, b.decoder.sv2
    modifies a.theirs.decryptor`n, b.theirs.decryptor`n
    ensures a.Valid() && b.Valid()
    ensures Duplex(a.Value(), b.Value()) == RunBoth(old(Duplex(a.Value(), b.Value())), hs)
  {
    hide Step, Framed, Room, Separate, Conduit.Valid, Conduit.Value;
    assert Separate(b, a) by { SeparateSwaps(a, b); }
    ghost var d := Duplex(a.Value(), b.Value());
    for i := 0 to |hs|
      invariant a.Valid() && b.Valid() && Framed(a.Value()) && Framed(b.Value())
      invariant Duplex(a.Value(), b.Value()) == RunBoth(d, hs[..i])
    {
      assert RoomAt(RunBoth(d, hs[..i]), hs[i]);
      assert hs[..i + 1][..i] == hs[..i];
      if hs[i].direction == ToResponder {
        Advance(a, b, hs[i].event);
      } else {
        Advance(b, a, hs[i].event);
      }
    }
    assert hs[..|hs|] == hs;
  }

  lemma SeparateSwaps(a: Conduit, b: Conduit)
    requires Separate(a, b)
    ensures Separate(b, a)
  {
  }
}
