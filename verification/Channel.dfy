/** One direction of the encrypted channel as a step system: an encoder, a FIFO byte pipe, and a
    decoder driven by the read loop of `noise_stream.rs`. */
module Channel {
  import opened Bytes
  import opened Crypto
  import opened Framing
  import opened Transport

  // A frame as it went out: serialized, the counter it was sealed from, and the sealed bytes.
  datatype Packet = Packet(raw: bytes, n: nat, head: bytes, body: bytes, pieces: nat)

  function Pack(key: bytes, n: nat, raw: bytes): (k: Packet)
    requires |raw| >= HEADER_SIZE
    ensures k.head + k.body == SealFrame(key, n, raw) && 1 + k.pieces == Records(raw)
  {
    Packet(raw, n, SealRecord(key, n, raw[..HEADER_SIZE]), SealFrom(key, n + 1, raw, HEADER_SIZE),
           PieceCount(|raw| - HEADER_SIZE, PIECE_SIZE))
  }

  ghost predicate Packed(key: bytes, k: Packet) {
    |k.raw| >= HEADER_SIZE && k == Pack(key, k.n, k.raw)
  }

  // What the receiver finds in a packet whose header declares the length of its payload.
  ghost predicate Opens(key: bytes, k: Packet) {
    && |k.raw| >= HEADER_SIZE
    && |k.head| == ENCRYPTED_HEADER_SIZE
    && OpenRecord(key, k.n, k.head) == Some(k.raw[..HEADER_SIZE])
    && EncryptedLen(DeclaredLen(k.raw[..HEADER_SIZE])) == |k.body|
    && OpenFrom(key, k.n + 1, k.body, 0) == Some(k.raw[HEADER_SIZE..])
    && PieceCount(|k.body|, CHUNK_SIZE) == k.pieces
  }

  lemma PacketOpens(key: bytes, k: Packet)
    requires Packed(key, k) && Declares(k.raw)
    ensures Opens(key, k)
  {
    SealFromLength(key, k.n + 1, k.raw, HEADER_SIZE);
    OpenSealFrom(key, k.n + 1, k.raw, HEADER_SIZE, k.body, 0);
    assert k.raw[..HEADER_SIZE][3..6] == k.raw[3..6];
    assert k.body[0..] == k.body;
  }

  lemma NextOpensHeader(key: bytes, d: Dec, k: Packet)
    requires Opens(key, k) && d.sv2 == [] && d.noise == k.head
    ensures Ready(d)
    ensures Next(key, k.n, d) == Result(Dec(|k.body|, [], k.raw[..HEADER_SIZE]), k.n + 1, Missing(|k.body|))
  {
  }

  lemma NextOpensPayload(key: bytes, d: Dec, k: Packet)
    requires Opens(key, k) && d.sv2 == k.raw[..HEADER_SIZE] && d.noise == k.body
    ensures Ready(d)
    ensures Next(key, k.n + 1, d) ==
            Result(Dec(ENCRYPTED_HEADER_SIZE, [], []), k.n + 1 + k.pieces, Got(Sv2(FromBytesUnchecked(k.raw))))
  {
    assert k.raw[..HEADER_SIZE] + k.raw[HEADER_SIZE..] == k.raw;
  }

  lemma SplitAgrees(a: bytes, b: bytes, c: bytes, d: bytes)
    requires a + b == c + d && |a| == |c|
    ensures a == c && b == d
  {
    assert a == (a + b)[..|a|] && c == (c + d)[..|c|];
    assert b == (a + b)[|a|..] && d == (c + d)[|c|..];
  }

  datatype Link = Link(
    // the encoder: its key, its counter, and the frames it accepted
    sendKey: bytes, sendN: nat, sent: seq<Packet>,
    // bytes written and not yet read
    wire: bytes,
    // the read half: bytes collected for the current request
    pending: bytes,
    // the decoder: its state, key, counter, and the frames it put out, serialized
    dec: Dec, recvKey: bytes, recvN: nat, got: seq<bytes>,
    // a decryption failed or a length underflowed
    failed: bool)

  // What can happen, in any order: a frame is encoded and written, some bytes are read, or the
  // decoder is called once its request is complete.
  datatype Event = Send(frame: BuiltFrame) | Read(count: nat) | Poll

  function Step(l: Link, e: Event): Link {
    match e
    case Send(frame) =>
      ValidFrameHeader(frame);
      Sent(l, Pack(l.sendKey, l.sendN, frame.Raw()))
    case Read(count) =>
      if l.failed then l
      else
        var room := if |l.pending| <= l.dec.missing then l.dec.missing - |l.pending| else 0;
        var k := Min(count, Min(room, |l.wire|));
        l.(pending := l.pending + l.wire[..k], wire := l.wire[k..])
    case Poll =>
      if l.failed || |l.pending| != l.dec.missing then l else Polled(l, Fed(l.dec, l.pending))
  }

  function Sent(l: Link, k: Packet): Link {
    l.(sendN := l.sendN + 1 + k.pieces, sent := l.sent + [k], wire := l.wire + (k.head + k.body))
  }

  function Polled(l: Link, d: Dec): Link {
    if !Ready(d) then l.(failed := true)
    else
      var r := Next(l.recvKey, l.recvN, d);
      match r.outcome
      case Missing(_) => l.(dec := r.dec, recvN := r.n, pending := [])
      case Got(frame) =>
        l.(dec := r.dec, recvN := r.n, pending := [],
           got := l.got + [if frame.Sv2? then frame.frame.Raw() else frame.payload])
      case Failed => l.(failed := true)
  }

  function Run(l: Link, events: seq<Event>): Link {
    if events == [] then l else Step(Run(l, events[..|events| - 1]), events[|events| - 1])
  }

  // Everything written for a list of packets.
  ghost function Flat(ks: seq<Packet>): bytes {
    if ks == [] then [] else (ks[0].head + ks[0].body) + Flat(ks[1..])
  }

  // Each packet starts where the one before stopped counting.
  ghost predicate Chained(n: nat, ks: seq<Packet>, end: nat)
    decreases ks
  {
    if ks == [] then n == end else ks[0].n == n && Chained(n + 1 + ks[0].pieces, ks[1..], end)
  }

  lemma {:induction false} FlatAppend(ks: seq<Packet>, k: Packet)
    ensures Flat(ks + [k]) == Flat(ks) + (k.head + k.body)
  {
    var all := ks + [k];
    if ks == [] {
      assert all[1..] == [];
    } else {
      assert all[1..] == ks[1..] + [k] && all[0] == ks[0];
      FlatAppend(ks[1..], k);
    }
  }

  lemma {:induction false} ChainedAppend(n: nat, ks: seq<Packet>, k: Packet, end: nat)
    requires Chained(n, ks, end) && k.n == end
    ensures Chained(n, ks + [k], end + 1 + k.pieces)
    decreases ks
  {
    var all := ks + [k];
    if ks == [] {
      assert all[1..] == [];
    } else {
      assert all[1..] == ks[1..] + [k] && all[0] == ks[0];
      ChainedAppend(n + 1 + ks[0].pieces, ks[1..], k, end);
    }
  }

  // The frames put out are the first frames accepted.
  ghost predicate Delivered(l: Link) {
    |l.got| <= |l.sent| && forall i :: 0 <= i < |l.got| ==> l.got[i] == l.sent[i].raw
  }

  ghost function Outstanding(l: Link): seq<Packet>
    requires Delivered(l)
  {
    l.sent[|l.got|..]
  }

  // Waiting for a header, or for the payload of the first outstanding frame. In both cases the
  // bytes held and in flight are exactly what was sealed and not yet opened.
  ghost predicate AwaitingHeader(l: Link)
    requires Delivered(l)
  {
    && l.dec.sv2 == []
    && |l.dec.noise| + l.dec.missing <= ENCRYPTED_HEADER_SIZE
    && Chained(l.recvN, Outstanding(l), l.sendN)
    && l.dec.noise + (l.pending + l.wire) == Flat(Outstanding(l))
  }

  ghost predicate AwaitingPayload(l: Link)
    requires Delivered(l)
  {
    && Outstanding(l) != []
    && var k, later := Outstanding(l)[0], Outstanding(l)[1..];
    && Declares(k.raw) && l.dec == Dec(|k.body|, [], k.raw[..HEADER_SIZE])
    && l.recvN == k.n + 1 && Chained(k.n + 1 + k.pieces, later, l.sendN)
    && l.pending + l.wire == k.body + Flat(later)
  }

  ghost predicate Good(l: Link) {
    && !l.failed && l.recvKey == l.sendKey
    && Delivered(l)
    && |l.pending| <= l.dec.missing
    && (AwaitingHeader(l) || AwaitingPayload(l))
  }

  ghost predicate AllPacked(key: bytes, ks: seq<Packet>) {
    ks == [] || (AllPacked(key, ks[..|ks| - 1]) && Packed(key, ks[|ks| - 1]))
  }

  lemma {:induction false} PackedAt(key: bytes, ks: seq<Packet>, i: nat)
    requires AllPacked(key, ks) && i < |ks|
    ensures Packed(key, ks[i])
    decreases |ks|
  {
    if i < |ks| - 1 {
      PackedAt(key, ks[..|ks| - 1], i);
    }
  }

  lemma SentAwaitingHeader(l: Link, k: Packet)
    requires Delivered(l) && k.n == l.sendN && AwaitingHeader(l)
    ensures Delivered(Sent(l, k)) && AwaitingHeader(Sent(l, k))
  {
    var sealed := k.head + k.body;
    FlatAppend(Outstanding(l), k);
    ChainedAppend(l.recvN, Outstanding(l), k, l.sendN);
    assert Outstanding(Sent(l, k)) == Outstanding(l) + [k];
    assert l.dec.noise + (l.pending + (l.wire + sealed)) == (l.dec.noise + (l.pending + l.wire)) + sealed;
  }

  lemma SentAwaitingPayload(l: Link, k: Packet)
    requires Delivered(l) && k.n == l.sendN && AwaitingPayload(l)
    ensures Delivered(Sent(l, k)) && AwaitingPayload(Sent(l, k))
  {
    var sealed := k.head + k.body;
    var first, later := Outstanding(l)[0], Outstanding(l)[1..];
    FlatAppend(later, k);
    ChainedAppend(first.n + 1 + first.pieces, later, k, l.sendN);
    assert Outstanding(Sent(l, k)) == Outstanding(l) + [k];
    assert Outstanding(Sent(l, k))[1..] == later + [k];
    assert l.pending + (l.wire + sealed) == (l.pending + l.wire) + sealed;
    assert first.body + (Flat(later) + sealed) == (first.body + Flat(later)) + sealed;
  }

  lemma ReadKeepsGood(l: Link, count: nat)
    requires Good(l)
    ensures Good(Step(l, Read(count)))
  {
    var k := Min(count, Min(l.dec.missing - |l.pending|, |l.wire|));
    assert (l.pending + l.wire[..k]) + l.wire[k..] == l.pending + l.wire;
  }

  // The header is not complete yet: the decoder asks for the rest of it.
  lemma PollWaits(l: Link)
    requires Good(l) && AwaitingHeader(l) && |l.pending| == l.dec.missing
    requires |l.dec.noise| + |l.pending| < ENCRYPTED_HEADER_SIZE
    ensures Good(Step(l, Poll)) && AwaitingHeader(Step(l, Poll)) && Step(l, Poll).got == l.got
    ensures Step(l, Poll).dec.missing == ENCRYPTED_HEADER_SIZE - |Step(l, Poll).dec.noise|
  {
    var d := Fed(l.dec, l.pending);
    assert d.noise + ([] + l.wire) == l.dec.noise + (l.pending + l.wire);
  }

  // The header is complete: it decrypts, and the decoder asks for exactly the payload.
  lemma PollOpensHeader(l: Link)
    requires Good(l) && AwaitingHeader(l) && |l.pending| == l.dec.missing
    requires |l.dec.noise| + |l.pending| == ENCRYPTED_HEADER_SIZE
    requires Outstanding(l) != [] ==> Declares(Outstanding(l)[0].raw) && Opens(l.sendKey, Outstanding(l)[0])
    ensures Good(Step(l, Poll)) && AwaitingPayload(Step(l, Poll)) && Step(l, Poll).got == l.got
  {
    var d := Fed(l.dec, l.pending);
    assert d.noise + l.wire == Flat(Outstanding(l));
    var k, rest := Outstanding(l)[0], Outstanding(l)[0].body + Flat(Outstanding(l)[1..]);
    assert d.noise + l.wire == k.head + rest;
    SplitAgrees(d.noise, l.wire, k.head, rest);
    NextOpensHeader(l.sendKey, d, k);
    assert [] + l.wire == l.wire;
  }

  // The payload is complete: it decrypts, and the frame comes out as it went in.
  lemma PollOpensPayload(l: Link)
    requires Good(l) && AwaitingPayload(l) && |l.pending| == l.dec.missing
    requires Opens(l.sendKey, Outstanding(l)[0])
    ensures Good(Step(l, Poll)) && AwaitingHeader(Step(l, Poll))
    ensures Step(l, Poll).got == l.got + [Outstanding(l)[0].raw]
    ensures Step(l, Poll).dec == Dec(ENCRYPTED_HEADER_SIZE, [], [])
  {
    var k, later := Outstanding(l)[0], Outstanding(l)[1..];
    SplitAgrees(l.pending, l.wire, k.body, Flat(later));
    NextOpensPayload(l.sendKey, Fed(l.dec, l.pending), k);
    assert [] + ([] + l.wire) == l.wire;
    assert l.sent[|l.got| + 1..] == later;
  }

  lemma PollKeepsGood(l: Link)
    requires Good(l) && AllPacked(l.sendKey, l.sent)
    requires Outstanding(l) != [] ==> Declares(Outstanding(l)[0].raw)
    ensures Good(Step(l, Poll))
  {
    if Outstanding(l) != [] {
      PackedAt(l.sendKey, l.sent, |l.got|);
      PacketOpens(l.sendKey, l.sent[|l.got|]);
    }
    if |l.pending| == l.dec.missing {
      if AwaitingPayload(l) {
        PollOpensPayload(l);
      } else if |l.dec.noise| + |l.pending| < ENCRYPTED_HEADER_SIZE {
        PollWaits(l);
      } else {
        PollOpensHeader(l);
      }
    }
  }

  // What every reachable state of a sender satisfies, whatever frames it was given.
  ghost predicate SentSoundly(l: Link) {
    AllPacked(l.sendKey, l.sent) && Chained(0, l.sent, l.sendN)
  }

  ghost predicate AllDeclare(ks: seq<Packet>) {
    forall i :: 0 <= i < |ks| ==> Declares(ks[i].raw)
  }

  // What every reachable state of a link satisfies when the frames declare their lengths.
  ghost predicate Sound(l: Link) {
    Good(l) && SentSoundly(l) && AllDeclare(l.sent)
  }

  // A link before anything is sent, whatever the decoder was told to read first: 0 bytes when
  // fresh, 2 after a handshake, 22 after a frame.
  function Fresh(sendKey: bytes, recvKey: bytes, hint: nat): Link {
    Link(sendKey, 0, [], [], [], Dec(hint, [], []), recvKey, 0, [], false)
  }

  lemma FreshIsSound(key: bytes, hint: nat)
    requires hint <= ENCRYPTED_HEADER_SIZE
    ensures Sound(Fresh(key, key, hint))
  {
    assert Fresh(key, key, hint).dec.noise + ([] + []) == [];
  }

  lemma SentKeepsGood(l: Link, k: Packet)
    requires Good(l) && k.n == l.sendN
    ensures Good(Sent(l, k))
  {
    if AwaitingHeader(l) { SentAwaitingHeader(l, k); } else { SentAwaitingPayload(l, k); }
  }

  lemma SendKeepsSender(l: Link, frame: BuiltFrame)
    requires SentSoundly(l)
    ensures SentSoundly(Step(l, Send(frame)))
  {
    hide Packed;
    ValidFrameHeader(frame);
    var k := Pack(l.sendKey, l.sendN, frame.Raw());
    assert Packed(l.sendKey, k) by { PackIsPacked(l.sendKey, l.sendN, frame.Raw()); }
    ChainedAppend(0, l.sent, k, l.sendN);
    assert (l.sent + [k])[..|l.sent|] == l.sent;
  }

  lemma PackIsPacked(key: bytes, n: nat, raw: bytes)
    requires |raw| >= HEADER_SIZE
    ensures Packed(key, Pack(key, n, raw)) && Pack(key, n, raw).n == n
  {
  }

  // Sending a frame keeps the link good, at any moment and whatever the frame.
  lemma SendKeepsGood(l: Link, frame: BuiltFrame)
    requires Good(l)
    ensures Good(Step(l, Send(frame)))
  {
    hide Good;
    ValidFrameHeader(frame);
    PackIsPacked(l.sendKey, l.sendN, frame.Raw());
    SentKeepsGood(l, Pack(l.sendKey, l.sendN, frame.Raw()));
  }

  lemma SendKeepsSound(l: Link, frame: BuiltFrame)
    requires Sound(l) && frame.WellFormed()
    ensures Sound(Step(l, Send(frame)))
  {
    hide Good, SentSoundly;
    ValidFrameHeader(frame);
    SendKeepsGood(l, frame);
    SendKeepsSender(l, frame);
  }

  // A link in step, whatever frames are still to come: the next one must declare its length.
  ghost predicate InStep(l: Link) {
    Good(l) && SentSoundly(l)
  }

  ghost predicate NextDeclares(l: Link)
    requires Delivered(l)
  {
    Outstanding(l) != [] && Declares(Outstanding(l)[0].raw)
  }

  lemma ReceiveKeepsStep(l: Link, e: Event)
    requires InStep(l) && !e.Send? && (Outstanding(l) == [] || NextDeclares(l))
    ensures InStep(Step(l, e)) && Step(l, e).sent == l.sent
  {
    hide Next, Packed, Ready;
    if e.Poll? { PollKeepsGood(l); } else { ReadKeepsGood(l, e.count); }
  }

  lemma ReceiveKeepsSound(l: Link, e: Event)
    requires Sound(l) && !e.Send?
    ensures Sound(Step(l, e)) && Step(l, e).sent == l.sent
  {
    hide Step, Packed, AwaitingHeader, AwaitingPayload;
    ReceiveKeepsStep(l, e);
  }

  // The frames sent declare their lengths.
  ghost predicate Truthful(events: seq<Event>) {
    forall i :: 0 <= i < |events| && events[i].Send? ==> events[i].frame.WellFormed()
  }

  lemma {:induction false} RunKeepsSound(l: Link, events: seq<Event>)
    requires Sound(l) && Truthful(events)
    ensures Sound(Run(l, events))
  {
    hide Step, Sound;
    if events != [] {
      RunKeepsSound(l, events[..|events| - 1]);
      var before, e := Run(l, events[..|events| - 1]), events[|events| - 1];
      if e.Send? { SendKeepsSound(before, e.frame); } else { ReceiveKeepsSound(before, e); }
    }
  }

  // Whatever happens, in whatever order, the link stays sound.
  lemma EveryRunIsSound(key: bytes, hint: nat, events: seq<Event>)
    requires hint <= ENCRYPTED_HEADER_SIZE && Truthful(events)
    ensures Sound(Run(Fresh(key, key, hint), events))
  {
    FreshIsSound(key, hint);
    RunKeepsSound(Fresh(key, key, hint), events);
  }

  // Records of the packets, and those the receiver has not decrypted.
  ghost function RecordCount(ks: seq<Packet>): nat {
    if ks == [] then 0 else 1 + ks[0].pieces + RecordCount(ks[1..])
  }

  ghost function Unopened(l: Link): int
    requires Delivered(l)
  {
    RecordCount(Outstanding(l)) - if l.dec.sv2 == [] then 0 else 1
  }

  lemma {:induction false} ChainedCounts(n: nat, ks: seq<Packet>, end: nat)
    requires Chained(n, ks, end)
    ensures end == n + RecordCount(ks)
    decreases ks
  {
    if ks != [] {
      ChainedCounts(n + 1 + ks[0].pieces, ks[1..], end);
    }
  }

  // The counters differ by the records in flight.
  lemma NonceConservation(l: Link)
    requires InStep(l)
    ensures l.sendN - l.recvN == Unopened(l) && l.sendN == RecordCount(l.sent)
  {
    ChainedCounts(0, l.sent, l.sendN);
    if AwaitingHeader(l) {
      ChainedCounts(l.recvN, Outstanding(l), l.sendN);
    } else {
      var k, later := Outstanding(l)[0], Outstanding(l)[1..];
      PackedAt(l.sendKey, l.sent, |l.got|);
      ChainedCounts(k.n + 1 + k.pieces, later, l.sendN);
    }
  }

  // Each frame uses one counter value for its header and one for each chunk of its payload.
  lemma FrameRecords(l: Link, i: nat)
    requires SentSoundly(l) && i < |l.sent|
    ensures |l.sent[i].raw| >= HEADER_SIZE
    ensures l.sent[i].pieces == Chunks(|l.sent[i].raw| - HEADER_SIZE)
  {
    PackedAt(l.sendKey, l.sent, i);
    SealFromLength(l.sendKey, l.sent[i].n + 1, l.sent[i].raw, HEADER_SIZE);
  }

  lemma {:induction false} ChainedApart(n: nat, ks: seq<Packet>, end: nat, j: nat)
    requires Chained(n, ks, end) && j < |ks|
    ensures n <= ks[j].n && ks[j].n + 1 + ks[j].pieces <= end
    ensures forall i :: 0 <= i < j ==> ks[i].n + ks[i].pieces < ks[j].n
    decreases ks
  {
    if j == 0 {
      ChainedCounts(n, ks, end);
    } else {
      ChainedApart(n + 1 + ks[0].pieces, ks[1..], end, j - 1);
      forall i | 0 <= i < j
        ensures ks[i].n + ks[i].pieces < ks[j].n
      {
        assert i > 0 ==> ks[i] == ks[1..][i - 1];
      }
    }
  }

  // Below 2^64 records, no two records of a run share their 12-byte nonce: record `r` of frame
  // `i` and record `s` of frame `j`.
  lemma NoncesNeverRepeat(l: Link, i: nat, r: nat, j: nat, s: nat)
    requires SentSoundly(l) && l.sendN <= 0x1_0000_0000_0000_0000
    requires i <= j < |l.sent| && r <= l.sent[i].pieces && s <= l.sent[j].pieces && (i, r) != (j, s)
    ensures NonceBytes(l.sent[i].n + r) != NonceBytes(l.sent[j].n + s)
  {
    ChainedApart(0, l.sent, l.sendN, i);
    ChainedApart(0, l.sent, l.sendN, j);
    if NonceBytes(l.sent[i].n + r) == NonceBytes(l.sent[j].n + s) {
      NonceBytesInjective(l.sent[i].n + r, l.sent[j].n + s);
    }
  }

  lemma {:induction false} FlatSplit(a: seq<Packet>, b: seq<Packet>)
    ensures Flat(a + b) == Flat(a) + Flat(b)
  {
    if a == [] {
      assert a + b == b;
    } else {
      assert (a + b)[1..] == a[1..] + b && (a + b)[0] == a[0];
      FlatSplit(a[1..], b);
    }
  }

  // Bytes the receiver took from the pipe, and still wants for its present request.
  ghost function Taken(l: Link): int {
    |Flat(l.sent)| - |l.wire|
  }

  function Wanted(l: Link): int {
    l.dec.missing - |l.pending|
  }

  lemma FirstOutstanding(l: Link)
    requires InStep(l) && NextDeclares(l)
    ensures var k := Outstanding(l)[0];
            Opens(l.sendKey, k) && |k.head + k.body| == WireLen(k.raw)
  {
    var k := l.sent[|l.got|];
    PackedAt(l.sendKey, l.sent, |l.got|);
    PacketOpens(l.sendKey, k);
    SealFrameLength(l.sendKey, k.n, k.raw);
  }

  // The receiver never asks for a byte beyond the frame it is reading: what it wants is there,
  // and the bytes of all later frames are left in the pipe.
  lemma NeverReadsAhead(l: Link)
    requires InStep(l) && (Outstanding(l) == [] || NextDeclares(l))
    ensures 0 <= Wanted(l)
    ensures Outstanding(l) == [] ==> Wanted(l) <= ENCRYPTED_HEADER_SIZE
    ensures Outstanding(l) != [] ==> Wanted(l) + |Flat(Outstanding(l)[1..])| <= |l.wire|
  {
    if Outstanding(l) != [] {
      FirstOutstanding(l);
    }
  }

  // Whenever the receiver holds no byte, it took exactly the bytes of the frames put out.
  lemma ReadsMatchFrames(l: Link)
    requires Sound(l) && l.dec.sv2 == [] && l.dec.noise == [] && l.pending == []
    ensures Taken(l) == |Flat(l.sent[..|l.got|])|
  {
    FlatSplit(l.sent[..|l.got|], Outstanding(l));
    assert l.sent[..|l.got|] + Outstanding(l) == l.sent;
    assert [] + ([] + l.wire) == l.wire;
    if Outstanding(l) != [] {
      PackedAt(l.sendKey, l.sent, |l.got|);
    }
  }

  lemma {:induction false} RunConcat(l: Link, a: seq<Event>, b: seq<Event>)
    ensures Run(l, a + b) == Run(Run(l, a), b)
    decreases |b|
  {
    if b == [] {
      assert a + b == a;
    } else {
      assert (a + b)[..|a + b| - 1] == a + b[..|b| - 1];
      RunConcat(l, a, b[..|b| - 1]);
    }
  }

  // Calls of the decoder still due before the next frame comes out.
  function Rank(l: Link): nat {
    if l.dec.sv2 != [] then 0 else if |l.dec.noise| + l.dec.missing == ENCRYPTED_HEADER_SIZE then 1 else 2
  }

  lemma RunTwo(l: Link, a: Event, b: Event)
    ensures Run(l, [a, b]) == Step(Step(l, a), b)
  {
    assert [a, b][..1] == [a];
    assert Run(l, [a]) == Step(l, a) by { assert [a][..0] == []; }
  }

  // What is wanted can be read.
  lemma ReadFills(l: Link)
    requires InStep(l) && NextDeclares(l)
    ensures var read := Step(l, Read(l.dec.missing));
            && InStep(read) && read == l.(pending := read.pending, wire := read.wire) && |read.pending| == l.dec.missing
  {
    NeverReadsAhead(l);
    ReceiveKeepsStep(l, Read(l.dec.missing));
  }

  // Reading what is wanted and calling the decoder always makes progress.
  lemma Pump(l: Link) returns (l': Link)
    requires InStep(l) && NextDeclares(l)
    ensures l' == Run(l, [Read(l.dec.missing), Poll])
    ensures InStep(l') && l'.sent == l.sent
    ensures |l'.got| == |l.got| + 1 || (|l'.got| == |l.got| && Rank(l') < Rank(l))
  {
    hide Next, Ready, Declares;
    ReadFills(l);
    var read := Step(l, Read(l.dec.missing));
    l' := Step(read, Poll);
    RunTwo(l, Read(l.dec.missing), Poll);
    ReceiveKeepsStep(read, Poll);
    PollProgresses(read);
  }

  lemma PollProgresses(l: Link)
    requires InStep(l) && NextDeclares(l) && |l.pending| == l.dec.missing
    ensures var l' := Step(l, Poll);
            |l'.got| == |l.got| + 1 || (|l'.got| == |l.got| && Rank(l') < Rank(l))
  {
    FirstOutstanding(l);
    if AwaitingPayload(l) {
      PollOpensPayload(l);
    } else if |l.dec.noise| + |l.pending| < ENCRYPTED_HEADER_SIZE {
      PollWaits(l);
    } else {
      PollOpensHeader(l);
      assert Outstanding(Step(l, Poll)) == Outstanding(l);
    }
  }

  // From any link in step the receiver can go on to put out every frame up to the first that does
  // not declare its length.
  lemma {:induction false} FramesArrive(l: Link, w: nat) returns (events: seq<Event>)
    requires InStep(l) && |l.got| <= w <= |l.sent|
    requires forall i :: |l.got| <= i < w ==> Declares(l.sent[i].raw)
    ensures var l' := Run(l, events); InStep(l') && l'.sent == l.sent && |l'.got| == w
    ensures forall i :: 0 <= i < |events| ==> !events[i].Send?
    decreases w - |l.got|, Rank(l)
  {
    hide Step, Good, SentSoundly, Declares;
    if |l.got| == w {
      events := [];
    } else {
      assert Delivered(l) by { InStepDelivered(l); }
      assert Outstanding(l)[0] == l.sent[|l.got|];
      var l' := Pump(l);
      var rest := FramesArrive(l', w);
      events := [Read(l.dec.missing), Poll] + rest;
      RunConcat(l, [Read(l.dec.missing), Poll], rest);
    }
  }

  lemma InStepDelivered(l: Link)
    requires InStep(l)
    ensures Delivered(l)
  {
  }

  // From any sound link, all of them.
  lemma EveryFrameArrives(l: Link) returns (events: seq<Event>)
    requires Sound(l)
    ensures var l' := Run(l, events); Sound(l') && l'.sent == l.sent && |l'.got| == |l.sent|
  {
    hide SentSoundly, AwaitingHeader, AwaitingPayload;
    events := FramesArrive(l, |l.sent|);
  }

  // The frames the encoder accepted, serialized: every one it was given.
  function Accepted(events: seq<Event>): seq<bytes> {
    if events == [] then []
    else
      var before, last := Accepted(events[..|events| - 1]), events[|events| - 1];
      if last.Send? then before + [last.frame.Raw()] else before
  }

  ghost function Raws(ks: seq<Packet>): (raws: seq<bytes>)
    ensures |raws| == |ks| && forall i :: 0 <= i < |ks| ==> raws[i] == ks[i].raw
  {
    seq(|ks|, i requires 0 <= i < |ks| => ks[i].raw)
  }

  lemma {:induction false} AcceptedAreSent(l: Link, events: seq<Event>)
    ensures Raws(Run(l, events).sent) == Raws(l.sent) + Accepted(events)
  {
    hide Step;
    if events != [] {
      var before, last := events[..|events| - 1], events[|events| - 1];
      AcceptedAreSent(l, before);
      SentByStep(Run(l, before), last);
    }
  }

  lemma SentByStep(l: Link, e: Event)
    ensures Raws(Step(l, e).sent) == Raws(l.sent) + if e.Send? then [e.frame.Raw()] else []
  {
    hide Step;
    if e.Send? {
      var k := SendAppends(l, e.frame);
      assert Raws(l.sent + [k]) == Raws(l.sent) + [k.raw];
    } else {
      ReceiveSendsNothing(l, e);
    }
  }

  lemma SendAppends(l: Link, frame: BuiltFrame) returns (k: Packet)
    ensures Step(l, Send(frame)).sent == l.sent + [k] && k.raw == frame.Raw()
  {
    hide SealRecord, SealFrom;
    ValidFrameHeader(frame);
    k := Pack(l.sendKey, l.sendN, frame.Raw());
  }

  lemma ReceiveSendsNothing(l: Link, e: Event)
    requires !e.Send?
    ensures Step(l, e).sent == l.sent
  {
    hide Next, Ready;
  }

  // Nothing failed, and what came out is a prefix of what was accepted, byte for byte.
  ghost predicate InOrder(l: Link, accepted: seq<bytes>) {
    !l.failed && |l.got| <= |accepted| && l.got == accepted[..|l.got|]
  }

  // Whatever happens, in whatever order: no decryption fails, no length underflows, and the frames
  // put out are the first frames accepted.
  lemma InOrderDelivery(key: bytes, hint: nat, events: seq<Event>)
    requires hint <= ENCRYPTED_HEADER_SIZE && Truthful(events)
    ensures InOrder(Run(Fresh(key, key, hint), events), Accepted(events))
  {
    hide Run, Truthful, SentSoundly, AllDeclare, AwaitingHeader, AwaitingPayload;
    EveryRunIsSound(key, hint, events);
    AcceptedAreSent(Fresh(key, key, hint), events);
    assert Raws([]) + Accepted(events) == Accepted(events);
  }
}
