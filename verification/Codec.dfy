/** The encrypting encoder and the decrypting decoder, working in place in windowed buffers. */
module Codec {
  import opened Bytes
  import opened Buffer
  import opened Cipher
  import opened Crypto
  import opened Framing
  import opened Transport

  // The codec's phase. The handshake roles are modelled apart.
  datatype State = NotInitialized(msgLen: nat) | HandShaking | Transporting(codec: NoiseCodec)

  datatype Encoded = Bytes(wire: bytes) | ExpectedSv2Frame | ExpectedHandshakeFrame

  // One more piece sealed: it moves from what is to come to what is done.
  lemma SealStep(key: bytes, n: nat, done: bytes, raw: bytes, start: nat, end: nat)
    requires start < |raw| && end == Min(start + PIECE_SIZE, |raw|)
    ensures done + SealFrom(key, n, raw, start) ==
            (done + SealRecord(key, n, raw[start..end])) + SealFrom(key, n + 1, raw, end)
    ensures PieceCount(|raw| - start, PIECE_SIZE) == 1 + PieceCount(|raw| - end, PIECE_SIZE)
  {
  }

  lemma AllSealed(key: bytes, n: nat, raw: bytes)
    ensures SealFrom(key, n, raw, |raw|) == [] && PieceCount(|raw| - |raw|, PIECE_SIZE) == 0
  {
  }

  class NoiseEncoder {
    const noise: SystemBuffer
    const sv2: SystemBuffer

    // Between successful calls both buffers hold nothing but stale bytes.
    ghost predicate Valid()
      reads this, noise, sv2
    {
      noise != sv2 && noise.Valid() && sv2.Valid() && noise.Value() == sv2.Value() == Plain([], 0)
    }

    constructor ()
      ensures Valid() && fresh(noise) && fresh(sv2)
    {
      noise := new SystemBuffer();
      sv2 := new SystemBuffer();
    }

    // Writes a frame into the slice of the right length that starts at `at`.
    method Serialize(frame: Sv2Frame, at: nat)
      requires sv2.Valid() && frame.Valid() && at + frame.EncodedLength() == sv2.cursor
      modifies sv2`inner
      ensures sv2.Valid() && sv2.Value() == old(sv2.Value()).(data := old(sv2.Value()).data[..at] + frame.Raw())
    {
      match frame {
        case Serialized(_, raw) => sv2.CopyFromSlice(at, raw);
        case Message(header, payload) =>
          sv2.CopyFromSlice(at, header.ToBytes());
          sv2.CopyFromSlice(at + HEADER_SIZE, payload);
      }
    }

    // One piece, encrypted where it was appended.
    method EncryptPiece(piece: bytes, encryptedLen: nat, codec: NoiseCodec) returns (grown: nat)
      requires codec.Valid() && noise.Valid() && encryptedLen == noise.cursor && |piece| <= PIECE_SIZE
      requires codec.encryptor.n < U64_MAX
      modifies noise, codec.encryptor`n
      ensures codec.Valid() && noise.Valid() && noise.start == encryptedLen && grown == |piece| + MAC_LEN
      ensures noise.Value().data == old(noise.Value().data) +
              SealRecord(codec.encryptor.cipher.value, old(codec.encryptor.n), piece)
      ensures codec.encryptor.n == old(codec.encryptor.n) + 1
    {
      noise.Write(piece);
      noise.DangerSetStart(encryptedLen);
      var ok := codec.Encrypt(noise);
      var window := noise.AsRef();
      grown := |window|;
    }

    // The payload in chunks, after the header record.
    method EncryptPayload(raw: bytes, codec: NoiseCodec)
      requires codec.Valid() && noise.Valid() && noise.start <= noise.cursor == ENCRYPTED_HEADER_SIZE
      requires |raw| >= HEADER_SIZE
      requires codec.encryptor.n + PieceCount(|raw| - HEADER_SIZE, PIECE_SIZE) <= U64_MAX
      modifies noise, codec.encryptor`n
      ensures codec.Valid() && noise.Valid() && noise.start == 0
      ensures noise.Value().data == old(noise.Value().data) +
              SealFrom(codec.encryptor.cipher.value, old(codec.encryptor.n), raw, HEADER_SIZE)
      ensures codec.encryptor.n == old(codec.encryptor.n) + PieceCount(|raw| - HEADER_SIZE, PIECE_SIZE)
    {
      hide SealRecord, SealFrom, PieceCount;
      ghost var key, n0, front := codec.encryptor.cipher.value, codec.encryptor.n, noise.Value().data;
      var start := HEADER_SIZE;
      var end := if |raw| - start < PIECE_SIZE then |raw| else CHUNK_SIZE + start - AEAD_MAC_LEN;
      var encryptedLen := ENCRYPTED_HEADER_SIZE;
      ghost var done: bytes := [];
      ghost var total, todo := SealFrom(key, n0, raw, start), SealFrom(key, n0, raw, start);
      ghost var left := PieceCount(|raw| - start, PIECE_SIZE);
      while start < |raw|
        invariant HEADER_SIZE <= start <= |raw| && end == Min(start + PIECE_SIZE, |raw|)
        invariant codec.Valid() && codec.encryptor.cipher == Some(key)
        invariant noise.Valid() && noise.start <= encryptedLen == noise.cursor && noise.Value().data == front + done
        invariant todo == SealFrom(key, codec.encryptor.n, raw, start) && total == done + todo
        invariant left == PieceCount(|raw| - start, PIECE_SIZE)
        invariant codec.encryptor.n + left == n0 + PieceCount(|raw| - HEADER_SIZE, PIECE_SIZE)
      {
        ghost var n, record := codec.encryptor.n, SealRecord(key, codec.encryptor.n, raw[start..end]);
        SealStep(key, n, done, raw, start, end);
        todo, left := SealFrom(key, n + 1, raw, end), left - 1;
        var grown := EncryptPiece(raw[start..end], encryptedLen, codec);
        encryptedLen := encryptedLen + grown;
        start := end;
        end := Min(start + CHUNK_SIZE - AEAD_MAC_LEN, |raw|);
        assert (front + done) + record == front + (done + record);
        done := done + record;
      }
      AllSealed(key, codec.encryptor.n, raw);
      assert done + [] == done;
      noise.DangerSetStart(0);
    }

    // The frame as bytes, through the serialization buffer.
    method SerializeOwned(frame: Sv2Frame) returns (raw: bytes)
      requires sv2.Valid() && sv2.Value() == Plain([], 0) && frame.Valid()
      modifies sv2
      ensures sv2.Valid() && sv2.Value() == Plain([], 0) && raw == frame.Raw()
    {
      var at := sv2.GetWritable(frame.EncodedLength());
      Serialize(frame, at);
      raw := sv2.GetDataOwned();
    }

    method EncryptHeader(header: bytes, codec: NoiseCodec)
      requires codec.Valid() && noise.Valid() && noise.Value() == Plain([], 0) && |header| == HEADER_SIZE
      requires codec.encryptor.n < U64_MAX
      modifies noise, codec.encryptor`n
      ensures codec.Valid() && noise.Valid() && codec.encryptor.n == old(codec.encryptor.n) + 1
      ensures noise.Value() == Plain(SealRecord(codec.encryptor.cipher.value, old(codec.encryptor.n), header), 0)
    {
      noise.Write(header);
      assert noise.Value().data == header;
      var ok := codec.Encrypt(noise);
    }

    method EncryptRaw(raw: bytes, codec: NoiseCodec) returns (wire: bytes)
      requires codec.Valid() && noise.Valid() && noise.Value() == Plain([], 0) && |raw| >= HEADER_SIZE
      requires codec.encryptor.n + Records(raw) <= U64_MAX
      modifies noise, codec.encryptor`n
      ensures codec.Valid() && noise.Valid() && noise.Value() == Plain([], 0)
      ensures wire == SealFrame(codec.encryptor.cipher.value, old(codec.encryptor.n), raw)
      ensures codec.encryptor.n == old(codec.encryptor.n) + Records(raw)
    {
      EncryptHeader(raw[..HEADER_SIZE], codec);
      EncryptPayload(raw, codec);
      wire := noise.GetDataOwned();
    }

    method EncodeTransport(frame: Sv2Frame, codec: NoiseCodec) returns (r: Encoded)
      requires Valid() && codec.Valid() && frame.Valid()
      requires codec.encryptor.n + Records(frame.Raw()) <= U64_MAX
      modifies noise, sv2, codec.encryptor`n
      ensures Valid() && codec.Valid()
      ensures r == Bytes(SealFrame(codec.encryptor.cipher.value, old(codec.encryptor.n), frame.Raw()))
      ensures codec.encryptor.n == old(codec.encryptor.n) + Records(frame.Raw())
    {
      var raw := SerializeOwned(frame);
      var wire := EncryptRaw(raw, codec);
      var _ := sv2.GetDataOwned();
      r := Bytes(wire);
    }

    // While handshaking the message goes out as it is.
    method WhileHandshaking(payload: bytes) returns (r: Encoded)
      requires Valid()
      modifies noise, sv2
      ensures Valid() && r == Bytes(payload)
    {
      var at := noise.GetWritable(|payload|);
      for i := 0 to |payload|
        invariant noise.Valid() && noise.start == 0 && noise.cursor == at + |payload| == |payload|
        invariant noise.inner[..i] == payload[..i] && sv2.Valid() && sv2.Value() == Plain([], 0)
      {
        noise.CopyFromSlice(at + i, [payload[i]]);
      }
      var _ := sv2.GetDataOwned();
      var wire := noise.GetDataOwned();
      r := Bytes(wire);
    }

    // `encode`. A frame of the wrong kind is refused; in transport mode that leaves bytes behind
    // in the serialization buffer, so the encoder is no longer valid.
    method Encode(item: Frame, state: State) returns (r: Encoded)
      requires Valid() && (item.Sv2? ==> item.frame.Valid())
      requires state.Transporting? ==> state.codec.Valid()
      requires state.Transporting? && item.Sv2? ==> state.codec.encryptor.n + Records(item.frame.Raw()) <= U64_MAX
      modifies noise, sv2, (if state.Transporting? then {state.codec.encryptor} else {})`n
      ensures r.Bytes? <==> state.Transporting? == item.Sv2?
      ensures r.Bytes? ==> Valid()
      ensures state.Transporting? && item.Sv2? ==>
                && r.wire == SealFrame(state.codec.encryptor.cipher.value,
                                       old(state.codec.encryptor.n), item.frame.Raw())
                && state.codec.encryptor.n == old(state.codec.encryptor.n) + Records(item.frame.Raw())
      ensures !state.Transporting? && item.HandShake? ==> r.wire == item.payload
      ensures state.Transporting? && item.HandShake? ==>
                r == ExpectedSv2Frame && sv2.cursor == |item.payload| &&
                state.codec.encryptor.n == old(state.codec.encryptor.n)
      ensures !state.Transporting? && item.Sv2? ==> r == ExpectedHandshakeFrame && Valid()
    {
      match state {
        case Transporting(codec) =>
          if item.Sv2? {
            r := EncodeTransport(item.frame, codec);
          } else {
            var _ := sv2.GetWritable(|item.payload|);
            r := ExpectedSv2Frame;
          }
        case _ =>
          if item.HandShake? {
            r := WhileHandshaking(item.payload);
          } else {
            r := ExpectedHandshakeFrame;
          }
      }
    }
  }

  // One more chunk opened: what was done grows by it, or everything fails.
  lemma OpenStep(key: bytes, n: nat, done: bytes, c: bytes, start: nat, end: nat)
    requires start < |c| && end == Min(start + CHUNK_SIZE, |c|)
    ensures var piece := OpenRecord(key, n, c[start..end]);
            Prepend(Some(done), OpenFrom(key, n, c, start)) ==
            if piece == None then None else Prepend(Some(done + piece.value), OpenFrom(key, n + 1, c, end))
    ensures PieceCount(|c| - start, CHUNK_SIZE) == 1 + PieceCount(|c| - end, CHUNK_SIZE)
  {
    var rest := OpenFrom(key, n + 1, c, end);
    var piece := OpenRecord(key, n, c[start..end]);
    if piece.Some? && rest.Some? {
      assert done + (piece.value + rest.value) == (done + piece.value) + rest.value;
    }
  }

  lemma StopStep(key: bytes, n: nat, done: bytes, c: bytes, start: nat, end: nat)
    requires start < |c| && end == Min(start + CHUNK_SIZE, |c|)
    ensures var piece := OpenRecord(key, n, c[start..end]);
            OpenUntil(key, n, c, start, done) ==
            if piece == None then Stop(start, n, done) else OpenUntil(key, n + 1, c, end, done + piece.value)
  {
  }

  lemma AllOpened(key: bytes, n: nat, c: bytes)
    ensures OpenFrom(key, n, c, |c|) == Some([]) && PieceCount(|c| - |c|, CHUNK_SIZE) == 0
  {
  }

  // What a call that fails leaves in the plaintext buffer, and the counter: the record that did not
  // open, in the window after what is decrypted already.
  function Aborted(key: bytes, n: nat, d: Dec): (Plain, nat) {
    if d.sv2 == [] then (Plain(d.noise, 0), n) else AbortedIn(d.sv2, d.noise, OpenUntil(key, n, d.noise, 0, []))
  }

  function AbortedIn(header: bytes, encrypted: bytes, stop: Stop): (Plain, nat)
    requires stop.at <= |encrypted|
  {
    var record := encrypted[stop.at..Min(stop.at + CHUNK_SIZE, |encrypted|)];
    (Plain(header + stop.done + record, |header| + |stop.done|), stop.n)
  }

  // A call fails exactly when a record does not open, and that record is in the window.
  lemma AbortedExact(key: bytes, n: nat, d: Dec)
    requires Ready(d)
    requires |d.noise| == if d.sv2 == [] then ENCRYPTED_HEADER_SIZE else EncryptedLen(DeclaredLen(d.sv2))
    ensures var (left, counter) := Aborted(key, n, d);
            && left.start <= |left.data| && d.sv2 <= left.data[..left.start]
            && (Next(key, n, d).outcome.Failed? <==>
                left.start < |left.data| && OpenRecord(key, counter, left.data[left.start..]) == None)
  {
    hide OpenRecord, OpenFrom, OpenUntil, DeclaredLen, EncryptedLen;
    if d.sv2 != [] {
      OpenUntilExact(key, n, d.noise, 0, []);
      var stop := OpenUntil(key, n, d.noise, 0, []);
      var record := d.noise[stop.at..Min(stop.at + CHUNK_SIZE, |d.noise|)];
      assert (d.sv2 + stop.done + record)[|d.sv2| + |stop.done|..] == record;
    }
  }

  class NoiseDecoder {
    var missing: nat
    const noise: SystemBuffer
    const sv2: SystemBuffer

    ghost predicate Valid()
      reads this, noise, sv2
    {
      noise != sv2 && noise.Valid() && sv2.Valid() && noise.start == 0 && sv2.start == 0
    }

    ghost function Value(): Dec
      requires Valid()
      reads this, noise, sv2
    {
      Dec(missing, noise.Value().data, sv2.Value().data)
    }

    constructor ()
      ensures Valid() && Value() == Dec(0, [], []) && fresh(noise) && fresh(sv2)
    {
      missing := 0;
      noise := new SystemBuffer();
      sv2 := new SystemBuffer();
    }

    // After a failure in state `d` at counter `n`: the ciphertext is used up and the next request
    // would be for a header.
    ghost predicate Broken(codec: NoiseCodec, n: nat, d: Dec)
      reads this, noise, sv2, codec.decryptor
    {
      && missing == ENCRYPTED_HEADER_SIZE && codec.decryptor.cipher.Some?
      && noise.Valid() && sv2.Valid() && noise.Value() == Plain([], 0)
      && (sv2.Value(), codec.decryptor.n) == Aborted(codec.decryptor.cipher.value, n, d)
    }

    // The caller fills the whole of `writable`.
    method Feed(src: bytes)
      requires Valid() && |src| == missing
      modifies noise
      ensures Valid() && Value() == Fed(old(Value()), src)
    {
      var at := noise.GetWritable(missing);
      noise.CopyFromSlice(at, src);
    }

    method NextFrame(state: State) returns (outcome: Outcome)
      requires Valid() && !state.HandShaking?
      requires state.NotInitialized? ==> |Value().noise| <= state.msgLen
      requires state.Transporting? ==>
                 && state.codec.Valid() && Ready(Value())
                 && state.codec.decryptor.n + 1 + PieceCount(|Value().noise|, CHUNK_SIZE) <= U64_MAX
      modifies this, noise, sv2, (if state.Transporting? then {state.codec.decryptor} else {})`n
      ensures state.NotInitialized? ==>
                var next := NextHandshake(state.msgLen, old(Value()));
                Valid() && outcome == next.outcome && Value() == next.dec
      ensures state.Transporting? ==>
                var next := Next(state.codec.decryptor.cipher.value,
                                 old(state.codec.decryptor.n), old(Value()));
                && outcome == next.outcome
                && (!outcome.Failed? ==> Valid() && Value() == next.dec && state.codec.decryptor.n == next.n)
                && (outcome.Failed? ==> Broken(state.codec, old(state.codec.decryptor.n), old(Value())))
    {
      match state {
        case NotInitialized(msgLen) =>
          var window := noise.AsRef();
          var hint := msgLen - |window|;
          if hint == 0 {
            missing := 2;
            var src := noise.GetDataOwned();
            outcome := Got(HandShake(src));
          } else {
            missing := hint;
            outcome := Missing(hint);
          }
        case Transporting(codec) =>
          var hint;
          if sv2.cursor < HEADER_SIZE {
            var src := noise.GetDataByRef(noise.cursor);
            hint := if |src| < ENCRYPTED_HEADER_SIZE then ENCRYPTED_HEADER_SIZE - |src| else 0;
          } else {
            var src := sv2.GetDataByRef(HEADER_SIZE);
            assert src == Value().sv2;
            hint := EncryptedLen(DeclaredLen(src)) - noise.cursor;
          }
          if hint == 0 {
            missing := ENCRYPTED_HEADER_SIZE;
            outcome := DecodeNoiseFrame(codec);
          } else {
            missing := hint;
            outcome := Missing(hint);
          }
      }
    }

    // Called when the header, or the whole payload, has arrived.
    method DecodeNoiseFrame(codec: NoiseCodec) returns (outcome: Outcome)
      requires Valid() && codec.Valid() && missing == ENCRYPTED_HEADER_SIZE
      requires Ready(Value())
      requires |Value().noise| == if Value().sv2 == [] then ENCRYPTED_HEADER_SIZE
               else EncryptedLen(DeclaredLen(Value().sv2))
      requires codec.decryptor.n + 1 + PieceCount(|Value().noise|, CHUNK_SIZE) <= U64_MAX
      modifies this, noise, sv2, codec.decryptor`n
      ensures var next := Next(codec.decryptor.cipher.value, old(codec.decryptor.n), old(Value()));
              && outcome == next.outcome
              && (!outcome.Failed? ==> Valid() && Value() == next.dec && codec.decryptor.n == next.n)
              && (outcome.Failed? ==> Broken(codec, old(codec.decryptor.n), old(Value())))
    {
      if noise.cursor == ENCRYPTED_HEADER_SIZE && sv2.cursor == 0 {
        outcome := DecodeHeader(codec);
      } else {
        outcome := DecodePayload(codec);
      }
    }

    method DecodeHeader(codec: NoiseCodec) returns (outcome: Outcome)
      requires Valid() && codec.Valid() && Value().sv2 == [] && |Value().noise| == missing == ENCRYPTED_HEADER_SIZE
      requires codec.decryptor.n < U64_MAX
      modifies this, noise, sv2, codec.decryptor`n
      ensures var h := OpenRecord(codec.decryptor.cipher.value, old(codec.decryptor.n), old(Value()).noise);
              && (h == None ==> outcome == Failed && Broken(codec, old(codec.decryptor.n), old(Value())))
              && (h.Some? ==>
                    var want := EncryptedLen(DeclaredLen(h.value));
                    && outcome == Missing(want) && codec.decryptor.n == old(codec.decryptor.n) + 1
                    && Valid() && Value() == Dec(want, [], h.value))
    {
      var src := noise.GetDataOwned();
      sv2.Write(src);
      var ok := codec.Decrypt(sv2);
      if !ok {
        return Failed;
      }
      var header := sv2.GetDataByRef(HEADER_SIZE);
      assert header == OpenRecord(codec.decryptor.cipher.value, old(codec.decryptor.n), src).value;
      missing := EncryptedLen(DeclaredLen(header));
      outcome := Missing(missing);
    }

    // One chunk, decrypted where it was appended.
    method DecryptPiece(chunk: bytes, decryptedLen: nat, codec: NoiseCodec) returns (piece: Option<bytes>)
      requires codec.Valid() && sv2.Valid() && decryptedLen == sv2.cursor && codec.decryptor.n < U64_MAX
      modifies sv2, codec.decryptor`n
      ensures codec.Valid() && sv2.Valid() && sv2.start == decryptedLen
      ensures piece == OpenRecord(codec.decryptor.cipher.value, old(codec.decryptor.n), chunk)
      ensures sv2.Value().data == old(sv2.Value().data) + if piece.Some? then piece.value else chunk
      ensures codec.decryptor.n == old(codec.decryptor.n) + if piece.Some? then 1 else 0
    {
      sv2.Write(chunk);
      sv2.DangerSetStart(decryptedLen);
      var ok := codec.Decrypt(sv2);
      if !ok {
        return None;
      }
      var window := sv2.AsRef();
      piece := Some(window);
    }

    // The payload in chunks, each put after what is decrypted already.
    method DecryptPayload(encrypted: bytes, codec: NoiseCodec) returns (ok: bool)
      requires codec.Valid() && sv2.Valid() && sv2.start <= sv2.cursor == HEADER_SIZE
      requires codec.decryptor.n + PieceCount(|encrypted|, CHUNK_SIZE) <= U64_MAX
      modifies sv2, codec.decryptor`n
      ensures codec.Valid() && sv2.Valid()
      ensures var m := OpenFrom(codec.decryptor.cipher.value, old(codec.decryptor.n), encrypted, 0);
              && ok == m.Some?
              && (ok ==>
                    && sv2.Value() == Plain(old(sv2.Value().data) + m.value, 0)
                    && codec.decryptor.n == old(codec.decryptor.n) + PieceCount(|encrypted|, CHUNK_SIZE))
              && (!ok ==>
                    var stop := OpenUntil(codec.decryptor.cipher.value, old(codec.decryptor.n), encrypted, 0, []);
                    (sv2.Value(), codec.decryptor.n) == AbortedIn(old(sv2.Value().data), encrypted, stop))
    {
      hide OpenRecord, OpenFrom, OpenUntil, PieceCount;
      ghost var key, n0, header := codec.decryptor.cipher.value, codec.decryptor.n, sv2.Value().data;
      var start := 0;
      var end := if |encrypted| < CHUNK_SIZE then |encrypted| else CHUNK_SIZE;
      // the header is decrypted already
      var decryptedLen := HEADER_SIZE;
      ghost var done: bytes := [];
      ghost var total, todo := OpenFrom(key, n0, encrypted, 0), OpenFrom(key, n0, encrypted, 0);
      ghost var left := PieceCount(|encrypted|, CHUNK_SIZE);
      ghost var stop := OpenUntil(key, n0, encrypted, 0, []);
      assert forall m: bytes :: done + m == m;
      while start < |encrypted|
        invariant start <= |encrypted| && end == Min(start + CHUNK_SIZE, |encrypted|)
        invariant codec.Valid() && codec.decryptor.cipher == Some(key)
        invariant sv2.Valid() && sv2.start <= sv2.cursor == decryptedLen && sv2.Value().data == header + done
        invariant todo == OpenFrom(key, codec.decryptor.n, encrypted, start) && total == Prepend(Some(done), todo)
        invariant stop == OpenUntil(key, codec.decryptor.n, encrypted, start, done)
        invariant left == PieceCount(|encrypted| - start, CHUNK_SIZE)
        invariant codec.decryptor.n + left == n0 + PieceCount(|encrypted|, CHUNK_SIZE)
      {
        ghost var n := codec.decryptor.n;
        OpenStep(key, n, done, encrypted, start, end);
        StopStep(key, n, done, encrypted, start, end);
        todo, left := OpenFrom(key, n + 1, encrypted, end), left - 1;
        var piece := DecryptPiece(encrypted[start..end], decryptedLen, codec);
        if piece == None {
          return false;
        }
        start := end;
        end := Min(start + CHUNK_SIZE, |encrypted|);
        decryptedLen := decryptedLen + |piece.value|;
        done := done + piece.value;
        assert sv2.Value().data == header + done;
      }
      AllOpened(key, codec.decryptor.n, encrypted);
      assert done + [] == done;
      sv2.DangerSetStart(0);
      ok := true;
    }

    method DecodePayload(codec: NoiseCodec) returns (outcome: Outcome)
      requires Valid() && codec.Valid() && |Value().sv2| == HEADER_SIZE && missing == ENCRYPTED_HEADER_SIZE
      requires codec.decryptor.n + PieceCount(|Value().noise|, CHUNK_SIZE) <= U64_MAX
      modifies noise, sv2, codec.decryptor`n
      ensures var m := OpenFrom(codec.decryptor.cipher.value, old(codec.decryptor.n), old(Value()).noise, 0);
              && (m == None ==> outcome == Failed && Broken(codec, old(codec.decryptor.n), old(Value())))
              && (m.Some? ==>
                    && outcome == Got(Sv2(FromBytesUnchecked(old(Value()).sv2 + m.value)))
                    && codec.decryptor.n == old(codec.decryptor.n) + PieceCount(|old(Value()).noise|, CHUNK_SIZE)
                    && Valid() && Value() == Dec(missing, [], []))
    {
      var encrypted := noise.GetDataOwned();
      var ok := DecryptPayload(encrypted, codec);
      if !ok {
        return Failed;
      }
      var src := sv2.GetDataOwned();
      outcome := Got(Sv2(FromBytesUnchecked(src)));
    }
  }
}
