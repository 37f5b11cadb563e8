/** The objects together: the blocking read loop, and frames carried from an encoder to a decoder. */
module NoiseStream {
  import opened Bytes
  import opened Cipher
  import opened Codec
  import opened Crypto
  import opened Framing
  import opened Transport
  import opened Channel

  // Where the read loop stands in a frame that was sealed as `k`, with `tail` after it.
  ghost predicate InHeader(v: Dec, n: nat, rest: bytes, k: Packet, tail: bytes) {
    && v.sv2 == [] && n == k.n && |v.noise| + v.missing <= ENCRYPTED_HEADER_SIZE
    && v.noise + rest == k.head + (k.body + tail)
  }

  ghost predicate InPayload(v: Dec, n: nat, rest: bytes, k: Packet, tail: bytes) {
    && |k.raw| >= HEADER_SIZE && v == Dec(|k.body|, [], k.raw[..HEADER_SIZE])
    && n == k.n + 1 && rest == k.body + tail
  }

  // What one filled request and one call lead to.
  lemma HeaderStep(key: bytes, v: Dec, rest: bytes, k: Packet, tail: bytes)
    requires Opens(key, k) && InHeader(v, k.n, rest, k, tail)
    ensures v.missing <= |rest| && Ready(Fed(v, rest[..v.missing]))
    ensures var fed, later := Fed(v, rest[..v.missing]), rest[v.missing..];
            var r := Next(key, k.n, fed);
            && r.outcome.Missing?
            && (|fed.noise| < ENCRYPTED_HEADER_SIZE ==>
                  InHeader(r.dec, r.n, later, k, tail) && |r.dec.noise| + r.dec.missing == ENCRYPTED_HEADER_SIZE)
            && (|fed.noise| == ENCRYPTED_HEADER_SIZE ==> InPayload(r.dec, r.n, later, k, tail))
  {
    hide OpenRecord, OpenFrom, EncryptedLen, DeclaredLen;
    var fed, later := Fed(v, rest[..v.missing]), rest[v.missing..];
    assert fed.noise + later == v.noise + rest;
    if |fed.noise| == ENCRYPTED_HEADER_SIZE {
      SplitAgrees(fed.noise, later, k.head, k.body + tail);
      NextOpensHeader(key, fed, k);
    }
  }

  lemma PayloadStep(key: bytes, v: Dec, rest: bytes, k: Packet, tail: bytes)
    requires Opens(key, k) && InPayload(v, k.n + 1, rest, k, tail)
    ensures v.missing <= |rest| && rest[v.missing..] == tail && Ready(Fed(v, rest[..v.missing]))
    ensures Next(key, k.n + 1, Fed(v, rest[..v.missing])) ==
            Result(Dec(ENCRYPTED_HEADER_SIZE, [], []), k.n + 1 + k.pieces, Got(Sv2(FromBytesUnchecked(k.raw))))
    ensures Fed(v, rest[..v.missing]).noise == k.body
  {
    hide OpenRecord, OpenFrom, EncryptedLen, DeclaredLen, FromBytesUnchecked;
    var fed := Fed(v, rest[..v.missing]);
    assert fed.noise == k.body;
    NextOpensPayload(key, fed, k);
  }

  lemma OnePiece(len: nat)
    requires len <= ENCRYPTED_HEADER_SIZE
    ensures PieceCount(len, CHUNK_SIZE) <= 1
  {
  }

  // One turn of the loop: fill the request, call the decoder.
  method ReadStep(d: NoiseDecoder, codec: NoiseCodec, wire: bytes) returns (outcome: Outcome, rest: bytes)
    requires d.Valid() && codec.Valid() && d.missing <= |wire| && Ready(Fed(d.Value(), wire[..d.missing]))
    requires codec.decryptor.n + 1 + PieceCount(|Fed(d.Value(), wire[..d.missing]).noise|, CHUNK_SIZE) <= U64_MAX
    modifies d, d.noise, d.sv2, codec.decryptor`n
    ensures rest == wire[old(d.missing)..] && codec.Valid() && codec.decryptor.cipher == old(codec.decryptor.cipher)
    ensures var next := Next(codec.decryptor.cipher.value, old(codec.decryptor.n),
                             Fed(old(d.Value()), wire[..old(d.missing)]));
            && outcome == next.outcome
            && (!outcome.Failed? ==> d.Valid() && d.Value() == next.dec && codec.decryptor.n == next.n)
  {
    hide Next;
    var src := wire[..d.missing];
    rest := wire[d.missing..];
    d.Feed(src);
    outcome := d.NextFrame(Transporting(codec));
  }

  // `read_frame`: the loop ends with the frame that was sealed, and has read its bytes and no others.
  method ReadFrame(d: NoiseDecoder, codec: NoiseCodec, wire: bytes, ghost k: Packet, ghost tail: bytes)
    returns (frame: Frame, rest: bytes)
    requires d.Valid() && codec.Valid() && d.Value() == Dec(d.missing, [], []) && d.missing <= ENCRYPTED_HEADER_SIZE
    requires Opens(codec.decryptor.cipher.value, k) && k.n == codec.decryptor.n && k.n + 2 + k.pieces <= U64_MAX
    requires wire == k.head + (k.body + tail)
    modifies d, d.noise, d.sv2, codec.decryptor`n
    ensures frame == Sv2(FromBytesUnchecked(k.raw)) && rest == tail
    ensures d.Valid() && d.Value() == Dec(ENCRYPTED_HEADER_SIZE, [], [])
    ensures codec.Valid() && codec.decryptor.cipher == old(codec.decryptor.cipher) &&
            codec.decryptor.n == k.n + 1 + k.pieces
  {
    hide Next, Opens, Ready, FromBytesUnchecked;
    ghost var key := codec.decryptor.cipher.value;
    rest := wire;
    assert [] + rest == rest;
    while true
      invariant d.Valid() && codec.Valid() && codec.decryptor.cipher == Some(key)
      invariant InHeader(d.Value(), codec.decryptor.n, rest, k, tail) ||
                InPayload(d.Value(), codec.decryptor.n, rest, k, tail)
      decreases if d.Value().sv2 != [] then 0 else if |d.Value().noise| + d.missing == ENCRYPTED_HEADER_SIZE then 1
                else 2
    {
      ghost var v := d.Value();
      if d.sv2.cursor == 0 {
        HeaderStep(key, v, rest, k, tail);
        OnePiece(|Fed(v, rest[..v.missing]).noise|);
      } else {
        PayloadStep(key, v, rest, k, tail);
        BodyPieces(key, k);
      }
      var outcome;
      outcome, rest := ReadStep(d, codec, rest);
      if outcome.Got? {
        frame := outcome.frame;
        return;
      }
    }
  }

  lemma BodyPieces(key: bytes, k: Packet)
    requires Opens(key, k)
    ensures PieceCount(|k.body|, CHUNK_SIZE) == k.pieces
  {
  }

  ghost function TotalRecords(frames: seq<Sv2Frame>): nat
    requires AllWellFormed(frames)
  {
    if frames == [] then 0
    else
      ValidFrameHeader(frames[0]);
      Records(frames[0].Raw()) + TotalRecords(frames[1..])
  }

  // One frame, from one peer's encoder to the other's decoder.
  method Carry(e: NoiseEncoder, ours: NoiseCodec, d: NoiseDecoder, theirs: NoiseCodec, frame: Sv2Frame)
    returns (got: Frame)
    requires e.Valid() && ours.Valid() && d.Valid() && theirs.Valid() && frame.WellFormed()
    requires {e.noise, e.sv2} !! {d.noise, d.sv2} && ours.encryptor != theirs.decryptor
    requires ours.encryptor.cipher == theirs.decryptor.cipher && ours.encryptor.n == theirs.decryptor.n
    requires d.Value() == Dec(d.missing, [], []) && d.missing <= ENCRYPTED_HEADER_SIZE
    requires |frame.Raw()| >= HEADER_SIZE && ours.encryptor.n + 1 + Records(frame.Raw()) <= U64_MAX
    modifies e.noise, e.sv2, ours.encryptor`n, d, d.noise, d.sv2, theirs.decryptor`n
    ensures got == Sv2(FromBytesUnchecked(frame.Raw()))
    ensures e.Valid() && ours.Valid() && d.Valid() && theirs.Valid() && d.Value() == Dec(d.missing, [], []) &&
            d.missing <= ENCRYPTED_HEADER_SIZE
    ensures ours.encryptor.cipher == theirs.decryptor.cipher == old(ours.encryptor.cipher)
    ensures ours.encryptor.n == theirs.decryptor.n == old(ours.encryptor.n) + Records(frame.Raw())
  {
    hide Opens, SealFrame, FromBytesUnchecked, Records;
    ghost var key, n := ours.encryptor.cipher.value, ours.encryptor.n;
    ghost var k := Pack(key, n, frame.Raw());
    ValidFrameHeader(frame);
    PacketOpens(key, k);
    var encoded := e.EncodeTransport(frame, ours);
    assert encoded.wire == k.head + (k.body + []);
    var rest;
    got, rest := ReadFrame(d, theirs, encoded.wire, k, []);
  }

  // Any list of frames: each comes out as it went in, and the two counters stay level.
  method Exchange(e: NoiseEncoder, ours: NoiseCodec, d: NoiseDecoder, theirs: NoiseCodec, frames: seq<Sv2Frame>)
    returns (got: seq<Frame>)
    requires e.Valid() && ours.Valid() && d.Valid() && theirs.Valid() && AllWellFormed(frames)
    requires {e.noise, e.sv2} !! {d.noise, d.sv2} && ours.encryptor != theirs.decryptor
    requires ours.encryptor.cipher == theirs.decryptor.cipher && ours.encryptor.n == theirs.decryptor.n
    requires d.Value() == Dec(d.missing, [], []) && d.missing <= ENCRYPTED_HEADER_SIZE
    requires ours.encryptor.n + 1 + TotalRecords(frames) <= U64_MAX
    modifies e.noise, e.sv2, ours.encryptor`n, d, d.noise, d.sv2, theirs.decryptor`n
    ensures |got| == |frames|
    ensures forall i :: 0 <= i < |frames| ==>
            got[i].Sv2? && got[i].frame.Raw() == frames[i].Raw() && got[i].frame.header == frames[i].header
    ensures ours.encryptor.n == theirs.decryptor.n == old(ours.encryptor.n) + TotalRecords(frames)
  {
    hide FromBytesUnchecked, Records;
    got := [];
    ghost var n := ours.encryptor.n;
    for i := 0 to |frames|
      invariant e.Valid() && ours.Valid() && d.Valid() && theirs.Valid()
      invariant ours.encryptor.cipher == theirs.decryptor.cipher && ours.encryptor.n == theirs.decryptor.n
      invariant d.Value() == Dec(d.missing, [], []) && d.missing <= ENCRYPTED_HEADER_SIZE
      invariant ours.encryptor.n + TotalRecords(frames[i..]) == n + TotalRecords(frames)
      invariant |got| == i
      invariant forall j :: 0 <= j < i ==>
                got[j].Sv2? && got[j].frame.Raw() == frames[j].Raw() && got[j].frame.header == frames[j].header
    {
      assert frames[i..][1..] == frames[i + 1..];
      assert frames[i..][0] == frames[i];
      ValidFrameHeader(frames[i]);
      Arrival(frames[i]);
      var frame := Carry(e, ours, d, theirs, frames[i]);
      got := got + [frame];
    }
  }

  lemma Arrival(f: Sv2Frame)
    requires f.Valid()
    ensures |f.Raw()| >= HEADER_SIZE
    ensures FromBytesUnchecked(f.Raw()).Raw() == f.Raw() && FromBytesUnchecked(f.Raw()).header == f.header
  {
    ValidFrameHeader(f);
  }
}
