/** What the encrypted transport computes, on plain byte sequences: the simple form that the
    windowed loops of the encoder and decoder refine. */
module Transport {
  import opened Bytes
  import opened Crypto
  import opened Framing

  // Pieces of at most `size` bytes that cover `len` bytes.
  function PieceCount(len: nat, size: nat): nat
    requires size > 0
    decreases len
  {
    if len == 0 then 0 else 1 + PieceCount(len - Min(len, size), size)
  }

  // The bytes of `m` from `start` on, as records of at most `PIECE_SIZE` plaintext bytes.
  function SealFrom(key: bytes, n: nat, m: bytes, start: nat): (c: bytes)
    requires start <= |m|
    decreases |m| - start
  {
    if start == |m| then []
    else
      var end := Min(start + PIECE_SIZE, |m|);
      SealRecord(key, n, m[start..end]) + SealFrom(key, n + 1, m, end)
  }

  // Cuts every `CHUNK_SIZE` bytes, wherever they came from.
  function OpenFrom(key: bytes, n: nat, c: bytes, start: nat): (m: Option<bytes>)
    requires start <= |c|
    decreases |c| - start
  {
    if start == |c| then Some([])
    else
      var end := Min(start + CHUNK_SIZE, |c|);
      Prepend(OpenRecord(key, n, c[start..end]), OpenFrom(key, n + 1, c, end))
  }

  function Prepend(head: Option<bytes>, tail: Option<bytes>): Option<bytes> {
    if head.Some? && tail.Some? then Some(head.value + tail.value) else None
  }

  // Where opening the chunks stops: at the first that does not open, or at the end. `done` is what
  // was opened before.
  datatype Stop = Stop(at: nat, n: nat, done: bytes)

  function OpenUntil(key: bytes, n: nat, c: bytes, start: nat, done: bytes): (stop: Stop)
    requires start <= |c|
    ensures stop.at <= |c|
    decreases |c| - start
  {
    if start == |c| then Stop(start, n, done)
    else
      var end := Min(start + CHUNK_SIZE, |c|);
      match OpenRecord(key, n, c[start..end])
      case None => Stop(start, n, done)
      case Some(piece) => OpenUntil(key, n + 1, c, end, done + piece)
  }

  // It stops short exactly when the payload does not open, and then at a chunk that does not open
  // under the counter reached; everything before that chunk has been opened.
  lemma {:induction false} OpenUntilExact(key: bytes, n: nat, c: bytes, start: nat, done: bytes)
    requires start <= |c|
    ensures var stop := OpenUntil(key, n, c, start, done);
            && (stop.at < |c| <==> OpenFrom(key, n, c, start) == None)
            && (stop.at < |c| ==> OpenRecord(key, stop.n, c[stop.at..Min(stop.at + CHUNK_SIZE, |c|)]) == None)
            && (stop.at == |c| ==>
                  var m := OpenFrom(key, n, c, start); m.Some? && stop.done == done + m.value)
            && stop.n + PieceCount(|c| - stop.at, CHUNK_SIZE) == n + PieceCount(|c| - start, CHUNK_SIZE)
    decreases |c| - start
  {
    hide OpenRecord;
    if start == |c| {
      assert done + [] == done;
    } else {
      var end := Min(start + CHUNK_SIZE, |c|);
      var piece := OpenRecord(key, n, c[start..end]);
      if piece.Some? {
        OpenUntilExact(key, n + 1, c, end, done + piece.value);
        var rest := OpenFrom(key, n + 1, c, end);
        if rest.Some? {
          assert (done + piece.value) + rest.value == done + (piece.value + rest.value);
        }
      }
    }
  }

  // The arithmetic length formula of the header counts exactly the bytes the loop emits.
  lemma {:induction false} SealFromLength(key: bytes, n: nat, m: bytes, start: nat)
    requires start <= |m|
    ensures |SealFrom(key, n, m, start)| == EncryptedLen(|m| - start)
    ensures PieceCount(|m| - start, PIECE_SIZE) == Chunks(|m| - start)
    decreases |m| - start
  {
    if start < |m| {
      EncryptedLenStep(|m| - start);
      SealFromLength(key, n + 1, m, Min(start + PIECE_SIZE, |m|));
    }
  }

  // Record by record: the i-th is the i-th piece, sealed under the i-th counter, at its own place.
  lemma {:induction false} SealFromAt(key: bytes, n: nat, m: bytes, start: nat, i: nat)
    requires start + i * PIECE_SIZE < |m|
    ensures var from := start + i * PIECE_SIZE;
            RecordAt(SealFrom(key, n, m, start), i * CHUNK_SIZE,
                     SealRecord(key, n + i, m[from..Min(from + PIECE_SIZE, |m|)]))
    decreases i
  {
    hide SealRecord, RecordAt;
    var end := Min(start + PIECE_SIZE, |m|);
    var first, rest := SealRecord(key, n, m[start..end]), SealFrom(key, n + 1, m, end);
    if i == 0 {
      FirstRecordAt(first, rest);
    } else {
      Steps(i);
      SealFromAt(key, n + 1, m, end, i - 1);
      var from := start + i * PIECE_SIZE;
      var record := SealRecord(key, n + i, m[from..Min(from + PIECE_SIZE, |m|)]);
      LaterRecordAt(first, rest, (i - 1) * CHUNK_SIZE, record);
    }
  }

  ghost predicate RecordAt(c: bytes, at: nat, record: bytes) {
    at + |record| <= |c| && c[at..at + |record|] == record
  }

  lemma Steps(i: nat)
    requires i > 0
    ensures i * PIECE_SIZE == PIECE_SIZE + (i - 1) * PIECE_SIZE && (i - 1) * PIECE_SIZE >= 0
    ensures i * CHUNK_SIZE == CHUNK_SIZE + (i - 1) * CHUNK_SIZE && (i - 1) * CHUNK_SIZE >= 0
  {
  }

  lemma FirstRecordAt(first: bytes, rest: bytes)
    ensures RecordAt(first + rest, 0, first)
  {
  }

  lemma LaterRecordAt(first: bytes, rest: bytes, at: nat, record: bytes)
    requires RecordAt(rest, at, record)
    ensures RecordAt(first + rest, |first| + at, record)
  {
  }

  // Where one record ends in the ciphertext: a full chunk, or the end.
  lemma CutAgrees(key: bytes, n: nat, m: bytes, start: nat, c: bytes, at: nat) returns (end: nat, cut: nat)
    requires start < |m| && at <= |c| && c[at..] == SealFrom(key, n, m, start)
    ensures end == Min(start + PIECE_SIZE, |m|) && cut == Min(at + CHUNK_SIZE, |c|) && at < cut
    ensures OpenRecord(key, n, c[at..cut]) == Some(m[start..end])
    ensures c[cut..] == SealFrom(key, n + 1, m, end)
  {
    end := Min(start + PIECE_SIZE, |m|);
    var record := SealRecord(key, n, m[start..end]);
    cut := at + |record|;
    assert c[at..cut] == c[at..][..|record|] == record;
    assert c[cut..] == c[at..][|record|..] == SealFrom(key, n + 1, m, end);
    assert end == |m| ==> cut == |c|;
  }

  // The decoder cuts where the encoder cut, for every payload.
  lemma {:induction false} OpenSealFrom(key: bytes, n: nat, m: bytes, start: nat, c: bytes, at: nat)
    requires start <= |m| && at <= |c| && c[at..] == SealFrom(key, n, m, start)
    ensures OpenFrom(key, n, c, at) == Some(m[start..])
    ensures PieceCount(|c| - at, CHUNK_SIZE) == PieceCount(|m| - start, PIECE_SIZE)
    decreases |m| - start
  {
    if start < |m| {
      var end, cut := CutAgrees(key, n, m, start, c, at);
      OpenSealFrom(key, n + 1, m, end, c, cut);
      assert m[start..] == m[start..end] + m[end..];
    } else {
      assert m[start..] == [];
    }
  }

  // A whole frame: the header as one record, then the payload.
  function SealFrame(key: bytes, n: nat, raw: bytes): (c: bytes)
    requires |raw| >= HEADER_SIZE
  {
    SealRecord(key, n, raw[..HEADER_SIZE]) + SealFrom(key, n + 1, raw, HEADER_SIZE)
  }

  // The records of a frame, each using up one nonce.
  function Records(raw: bytes): nat
    requires |raw| >= HEADER_SIZE
  {
    1 + PieceCount(|raw| - HEADER_SIZE, PIECE_SIZE)
  }

  function WireLen(raw: bytes): nat
    requires |raw| >= HEADER_SIZE
  {
    ENCRYPTED_HEADER_SIZE + EncryptedLen(|raw| - HEADER_SIZE)
  }

  lemma SealFrameLength(key: bytes, n: nat, raw: bytes)
    requires |raw| >= HEADER_SIZE
    ensures |SealFrame(key, n, raw)| == WireLen(raw)
    ensures Records(raw) == 1 + Chunks(|raw| - HEADER_SIZE)
  {
    SealFromLength(key, n + 1, raw, HEADER_SIZE);
  }

  // A decoder between calls: bytes it will ask for, ciphertext held, plaintext held.
  datatype Dec = Dec(missing: nat, noise: bytes, sv2: bytes)

  datatype Outcome = Missing(count: nat) | Got(frame: Frame) | Failed

  datatype Result = Result(dec: Dec, n: nat, outcome: Outcome)

  // Bytes copied into the slice handed out by `writable`.
  function Fed(d: Dec, src: bytes): Dec {
    d.(noise := d.noise + src)
  }

  // States in which no subtraction of lengths underflows.
  predicate Ready(d: Dec) {
    || (d.sv2 == [] && |d.noise| <= ENCRYPTED_HEADER_SIZE)
    || (|d.sv2| == HEADER_SIZE && |d.noise| <= EncryptedLen(DeclaredLen(d.sv2)))
  }

  // `next_frame` in transport mode.
  function Next(key: bytes, n: nat, d: Dec): Result
    requires Ready(d)
  {
    if d.sv2 == [] then
      if |d.noise| < ENCRYPTED_HEADER_SIZE then Wait(n, d, ENCRYPTED_HEADER_SIZE - |d.noise|)
      else
        match OpenRecord(key, n, d.noise)
        case None => Result(d, n, Failed)
        case Some(h) =>
          var want := EncryptedLen(DeclaredLen(h));
          Result(Dec(want, [], h), n + 1, Missing(want))
    else
      var want := EncryptedLen(DeclaredLen(d.sv2));
      if |d.noise| < want then Wait(n, d, want - |d.noise|)
      else
        match OpenFrom(key, n, d.noise, 0)
        case None => Result(d, n, Failed)
        case Some(m) =>
          Result(Dec(ENCRYPTED_HEADER_SIZE, [], []), n + PieceCount(|d.noise|, CHUNK_SIZE),
                 Got(Sv2(FromBytesUnchecked(d.sv2 + m))))
  }

  function Wait(n: nat, d: Dec, hint: nat): Result {
    Result(d.(missing := hint), n, Missing(hint))
  }

  // `next_frame` before the handshake is over, for a message of `msgLen` bytes.
  function NextHandshake(msgLen: nat, d: Dec): Result
    requires |d.noise| <= msgLen
  {
    if |d.noise| < msgLen then Wait(0, d, msgLen - |d.noise|)
    else Result(Dec(2, [], d.sv2), 0, Got(HandShake(d.noise)))
  }
}
