/** The codec without encryption, and the read loop that drives its decoder. */
module PlainCodec {
  import opened Bytes
  import opened Buffer
  import opened Framing

  // A decoder between calls: bytes it will ask for, and bytes held.
  datatype PlainDec = PlainDec(missing: nat, data: bytes)

  const START: PlainDec := PlainDec(HEADER_SIZE, [])

  // `next_frame`; no frame when bytes are missing.
  function NextPlain(d: PlainDec): (r: (PlainDec, Option<Sv2Frame>)) {
    var hint := SizeHint(d.data);
    if hint == 0 then (START, Some(FromBytesUnchecked(d.data)))
    else (d.(missing := hint), None)
  }

  // The request at which a plain connection hangs up, taking it for a noise handshake message.
  const NOISE_HANDSHAKE_SIZE_HINT: nat := 3363412

  // The read loop after some bytes: its decoder, the bytes not yet read, the frames put out, and
  // whether it still reads.
  datatype Reader = Reader(dec: PlainDec, unread: bytes, frames: seq<Sv2Frame>, open: bool)

  // The read loop on the bytes at hand: fill the request, call the decoder, as long as a whole
  // request is there and the next one is not the handshake's.
  function Receive(d: PlainDec, wire: bytes): Reader
    requires d.missing > 0
    decreases |wire|
  {
    if |wire| < d.missing then Reader(d, wire, [], true)
    else
      var (next, frame) := NextPlain(d.(data := d.data + wire[..d.missing]));
      var rest := wire[d.missing..];
      if frame.Some? then Prepended(frame.value, Receive(next, rest))
      else if next.missing == NOISE_HANDSHAKE_SIZE_HINT then Reader(next, rest, [], false)
      else Receive(next, rest)
  }

  function Prepended(frame: Sv2Frame, r: Reader): Reader {
    r.(frames := [frame] + r.frames)
  }

  // Everything the encoder wrote for a list of frames.
  ghost function Encoding(frames: seq<Sv2Frame>): bytes {
    if frames == [] then [] else frames[0].Raw() + Encoding(frames[1..])
  }

  // The frame as its receiver holds it.
  function Arrived(f: Sv2Frame): (g: Sv2Frame)
    requires f.Valid()
    ensures g.Serialized? && g.header == f.header && g.Raw() == f.Raw()
  {
    ValidFrameHeader(f);
    FromBytesUnchecked(f.Raw())
  }

  ghost function AllArrived(frames: seq<BuiltFrame>): seq<Sv2Frame> {
    seq(|frames|, i requires 0 <= i < |frames| => Arrived(frames[i]))
  }

  // A header is followed by a request for what it declares, and a whole frame by none.
  lemma HeaderThenHint(f: Sv2Frame)
    requires f.Valid()
    ensures |f.Raw()| >= HEADER_SIZE
    ensures SizeHint(f.Raw()[..HEADER_SIZE]) == f.header.msgLength as nat
    ensures f.WellFormed() ==> SizeHint(f.Raw()) == 0
  {
    ValidFrameHeader(f);
    var raw := f.Raw();
    assert raw[..HEADER_SIZE][3..6] == raw[3..6];
  }

  // The header at which the loop hangs up, whatever its payload.
  predicate HangsUp(f: Sv2Frame) {
    f.header.msgLength as nat == NOISE_HANDSHAKE_SIZE_HINT
  }

  // The frames the loop hands on and survives.
  predicate Survives(f: Sv2Frame) {
    f.WellFormed() && !HangsUp(f)
  }

  // One frame at the head of the stream: its header, then its payload unless that is empty.
  lemma ReceiveOne(f: Sv2Frame, rest: bytes)
    requires Survives(f)
    ensures Receive(START, f.Raw() + rest) == Prepended(Arrived(f), Receive(START, rest))
  {
    hide SizeHint;
    HeaderThenHint(f);
    var raw, wire := f.Raw(), f.Raw() + rest;
    var head, tail := raw[..HEADER_SIZE], wire[HEADER_SIZE..];
    assert wire[..HEADER_SIZE] == [] + head == head;
    if |raw| == HEADER_SIZE {
      assert head == raw && tail == rest;
    } else {
      var size := |raw| - HEADER_SIZE;
      assert tail[..size] == raw[HEADER_SIZE..] && tail[size..] == rest;
      assert head + raw[HEADER_SIZE..] == raw;
      assert NextPlain(PlainDec(HEADER_SIZE, head)) == (PlainDec(size, head), None);
      assert NextPlain(PlainDec(size, raw)) == (START, Some(Arrived(f)));
      assert Receive(PlainDec(size, head), tail) == Prepended(Arrived(f), Receive(START, rest));
    }
  }

  // What a loop that hung up has: the header, and everything after it unread.
  ghost function HungUp(f: Sv2Frame, rest: bytes, before: seq<Sv2Frame>): Reader
    requires f.Valid()
  {
    ValidFrameHeader(f);
    var dec := PlainDec(NOISE_HANDSHAKE_SIZE_HINT, f.Raw()[..HEADER_SIZE]);
    Reader(dec, f.Raw()[HEADER_SIZE..] + rest, before, false)
  }

  lemma ReceiveLast(f: Sv2Frame, rest: bytes)
    requires f.Valid() && HangsUp(f)
    ensures Receive(START, f.Raw() + rest) == HungUp(f, rest, [])
  {
    hide SizeHint;
    HeaderThenHint(f);
    var raw, wire := f.Raw(), f.Raw() + rest;
    assert wire[..HEADER_SIZE] == [] + raw[..HEADER_SIZE] == raw[..HEADER_SIZE];
    assert wire[HEADER_SIZE..] == raw[HEADER_SIZE..] + rest;
  }

  // A decoder between two requests: at the start, or with a header and asking for what it declares.
  ghost predicate Between(d: PlainDec) {
    d == START || (|d.data| == HEADER_SIZE && d.missing == DeclaredLen(d.data) > 0)
  }

  lemma NextBetween(d: PlainDec, src: bytes)
    requires Between(d) && |src| == d.missing
    ensures var (next, frame) := NextPlain(d.(data := d.data + src));
            && Between(next)
            && (frame.Some? ==> next == START && frame.value.WellFormed() && frame.value.Raw() == d.data + src)
            && (frame == None ==> next.data == d.data + src)
  {
    var data := d.data + src;
    if d == START {
      assert data == src;
    } else {
      assert data[3..6] == d.data[3..6];
    }
  }

  // On any bytes whatever: no byte is lost, added or moved, and each frame put out declares its length.
  lemma {:induction false} ReceiveConserves(d: PlainDec, wire: bytes)
    requires Between(d)
    ensures var r := Receive(d, wire);
            && d.data + wire == Encoding(r.frames) + (r.dec.data + r.unread)
            && AllWellFormed(r.frames) && Between(r.dec)
    decreases |wire|
  {
    hide SizeHint, FromBytesUnchecked, DeclaredLen, Sv2Frame.Raw, Sv2Frame.WellFormed;
    var r := Receive(d, wire);
    if |wire| < d.missing {
      assert [] + (d.data + wire) == d.data + wire;
    } else {
      var src, rest := wire[..d.missing], wire[d.missing..];
      assert d.data + wire == (d.data + src) + rest;
      NextBetween(d, src);
      var (next, frame) := NextPlain(d.(data := d.data + src));
      if frame.Some? || next.missing != NOISE_HANDSHAKE_SIZE_HINT {
        ReceiveConserves(next, rest);
      }
      if frame.Some? {
        var later := Receive(next, rest);
        assert r.frames[1..] == later.frames;
        assert rest == [] + rest == Encoding(later.frames) + (later.dec.data + later.unread);
        Regroup(d.data + src, Encoding(later.frames), later.dec.data + later.unread);
      } else {
        assert [] + ((d.data + src) + rest) == (d.data + src) + rest;
      }
    }
  }

  lemma Regroup(a: bytes, b: bytes, c: bytes)
    ensures a + (b + c) == (a + b) + c
  {
  }

  // How many frames come before the first that the loop does not survive or does not hand on.
  ghost function Survived(frames: seq<BuiltFrame>): (k: nat)
    ensures k <= |frames|
  {
    if frames == [] || !Survives(frames[0]) then 0 else 1 + Survived(frames[1..])
  }

  lemma {:induction false} SurvivedIs(frames: seq<BuiltFrame>)
    ensures var k := Survived(frames);
            (k < |frames| ==> !Survives(frames[k])) && forall i :: 0 <= i < k ==> Survives(frames[i])
  {
    hide Survives;
    if frames != [] && Survives(frames[0]) {
      var rest := frames[1..];
      SurvivedIs(rest);
      assert forall i :: 0 < i < |frames| ==> frames[i] == rest[i - 1];
    }
  }

  // What the loop makes of the encoding of a list of frames: those before the first that does not
  // survive arrive, and nothing ever arrives as that one. It stops at the first that hangs up.
  ghost predicate Served(frames: seq<BuiltFrame>, r: Reader) {
    var k := Survived(frames);
    && k <= |r.frames| && r.frames[..k] == AllArrived(frames[..k])
    && (k == |frames| ==> r == Reader(START, [], AllArrived(frames), true))
    && (k < |frames| && k < |r.frames| ==> r.frames[k].Raw() != frames[k].Raw())
    && (k < |frames| && HangsUp(frames[k]) ==>
          r == HungUp(frames[k], Encoding(frames[k + 1..]), AllArrived(frames[..k])))
  }

  // For every list of frames there is: exactly those before the first that does not survive arrive,
  // and so all of them arrive if and only if all survive.
  lemma {:induction false} PlainRoundTrip(frames: seq<BuiltFrame>)
    ensures var r := Receive(START, Encoding(frames));
            && Served(frames, r)
            && (r.frames == AllArrived(frames) <==> forall i :: 0 <= i < |frames| ==> Survives(frames[i]))
  {
    hide Receive, Served, Survives;
    if frames == [] {
      NoFrames();
    } else if !Survives(frames[0]) {
      FirstLost(frames);
    } else {
      PlainRoundTrip(frames[1..]);
      ReceiveOne(frames[0], Encoding(frames[1..]));
      ServedMore(frames, Receive(START, Encoding(frames[1..])));
    }
    ServedAll(frames, Receive(START, Encoding(frames)));
  }

  lemma NoFrames()
    ensures Served([], Receive(START, Encoding([])))
  {
    assert AllArrived([]) == [];
  }

  lemma FirstLost(frames: seq<BuiltFrame>)
    requires frames != [] && !Survives(frames[0])
    ensures Served(frames, Receive(START, Encoding(frames)))
  {
    hide Receive, Sv2Frame.Raw, Declares;
    var first, rest := frames[0], Encoding(frames[1..]);
    var r := Receive(START, Encoding(frames));
    assert AllArrived(frames[..0]) == [] == r.frames[..0];
    if HangsUp(first) {
      ReceiveLast(first, rest);
    } else {
      ReceiveConserves(START, Encoding(frames));
      ValidFrameHeader(first);
      if r.frames != [] { ValidFrameHeader(r.frames[0]); }
    }
  }

  lemma ServedMore(frames: seq<BuiltFrame>, later: Reader)
    requires frames != [] && Survives(frames[0]) && Served(frames[1..], later)
    ensures Served(frames, Prepended(Arrived(frames[0]), later))
  {
    hide Survives, HangsUp, Arrived, Sv2Frame.Raw;
    var rest, k, r := frames[1..], Survived(frames), Prepended(Arrived(frames[0]), later);
    assert frames[..k][1..] == rest[..k - 1];
    assert AllArrived(frames[..k]) == [Arrived(frames[0])] + AllArrived(rest[..k - 1]);
    assert AllArrived(frames) == [Arrived(frames[0])] + AllArrived(rest);
    assert r.frames[..k] == [Arrived(frames[0])] + later.frames[..k - 1];
    assert k < |frames| ==> frames[k + 1..] == rest[k..] && frames[k] == rest[k - 1];
  }

  lemma ServedAll(frames: seq<BuiltFrame>, r: Reader)
    requires Served(frames, r)
    ensures r.frames == AllArrived(frames) <==> forall i :: 0 <= i < |frames| ==> Survives(frames[i])
  {
    hide Survives, HangsUp, HungUp;
    SurvivedIs(frames);
    var k := Survived(frames);
    assert k < |frames| ==> AllArrived(frames)[k] == Arrived(frames[k]);
  }

  // With frames that declare their lengths, the loop still reads if and only if none has the
  // handshake's size, and then nothing is left; otherwise it has read that frame's header and no more.
  lemma WellFormedRoundTrip(frames: seq<BuiltFrame>)
    requires AllWellFormed(frames)
    ensures var k, r := Survived(frames), Receive(START, Encoding(frames));
            && r.frames == AllArrived(frames[..k])
            && (r.open <==> k == |frames|)
            && (r.open <==>
                forall i :: 0 <= i < |frames| ==> |frames[i].Raw()| - HEADER_SIZE != NOISE_HANDSHAKE_SIZE_HINT)
            && (r.open ==> r.dec == START && r.unread == [])
            && (!r.open ==> r == HungUp(frames[k], Encoding(frames[k + 1..]), r.frames))
  {
    hide Receive, Encoding, Sv2Frame.Raw;
    PlainRoundTrip(frames);
    SurvivedIs(frames);
    assert frames[..|frames|] == frames;
  }

  // A well formed frame, of a size the format allows, that ends a plain connection.
  lemma PlainHangsUp()
    ensures var f := Message(Header(0, 0, 3363412), Zeros(3363412));
            f.WellFormed() && Receive(START, f.Raw()).frames == [] && !Receive(START, f.Raw()).open
  {
    var f := Message(Header(0, 0, 3363412), Zeros(3363412));
    ReceiveLast(f, []);
    assert f.Raw() + [] == f.Raw();
  }

  // A frame that declares two bytes and has one: nothing comes out, and its byte waits for another.
  lemma PlainFalseFrame()
    ensures var f := FromBytesUnchecked([0, 0, 0, 2, 0, 0, 7]);
            && !HangsUp(f)
            && Receive(START, f.Raw()) == Reader(PlainDec(2, [0, 0, 0, 2, 0, 0]), [7], [], true)
  {
    var raw: bytes := [0, 0, 0, 2, 0, 0, 7];
    var f := FromBytesUnchecked(raw);
    assert raw[3..6] == LeBytes(2, 3);
    LeNatOfLeBytes(2, 3);
    HeaderThenHint(f);
    assert [] + raw[..HEADER_SIZE] == raw[..HEADER_SIZE] == [0, 0, 0, 2, 0, 0];
    assert raw[HEADER_SIZE..] == [7];
  }

  // The loop as it goes on after `r` with further bytes.
  ghost function Resumed(r: Reader, more: bytes): Reader
    requires r.dec.missing > 0
  {
    if !r.open then r.(unread := r.unread + more)
    else
      var later := Receive(r.dec, r.unread + more);
      later.(frames := r.frames + later.frames)
  }

  // The loop can stop between any two bytes and go on later: the frames do not depend on how the
  // stream was divided.
  lemma {:induction false} ReceiveResumes(d: PlainDec, a: bytes, b: bytes)
    requires d.missing > 0
    ensures var r := Receive(d, a); r.dec.missing > 0 && Resumed(r, b) == Receive(d, a + b)
    decreases |a|
  {
    hide SizeHint, FromBytesUnchecked;
    if |a| < d.missing {
      var later := Receive(d, a + b);
      assert [] + later.frames == later.frames;
    } else {
      var fed := d.(data := d.data + a[..d.missing]);
      assert (a + b)[..d.missing] == a[..d.missing] && (a + b)[d.missing..] == a[d.missing..] + b;
      var (next, frame) := NextPlain(fed);
      ReceiveResumes(next, a[d.missing..], b);
      var r := Receive(next, a[d.missing..]);
      if frame.Some? && r.open {
        var later := Receive(r.dec, r.unread + b);
        assert ([frame.value] + r.frames) + later.frames == [frame.value] + (r.frames + later.frames);
      }
    }
  }

  // So the round trip holds for any cut of the encoding of any list of frames.
  lemma CutRoundTrip(frames: seq<BuiltFrame>, cut: nat)
    requires cut <= |Encoding(frames)|
    ensures var r := Receive(START, Encoding(frames)[..cut]);
            && r.dec.missing > 0
            && var whole := Resumed(r, Encoding(frames)[cut..]);
               && Served(frames, whole)
               && (whole.frames == AllArrived(frames) <==> forall i :: 0 <= i < |frames| ==> Survives(frames[i]))
  {
    hide Served, Resumed;
    var wire := Encoding(frames);
    assert wire[..cut] + wire[cut..] == wire;
    ReceiveResumes(START, wire[..cut], wire[cut..]);
    PlainRoundTrip(frames);
  }

  class PlainDecoder {
    var missing: nat
    const buffer: SystemBuffer

    ghost predicate Valid()
      reads this, buffer
    {
      buffer.Valid() && buffer.start == 0
    }

    ghost function Value(): PlainDec
      requires Valid()
      reads this, buffer
    {
      PlainDec(missing, buffer.Value().data)
    }

    constructor ()
      ensures Valid() && Value() == START && fresh(buffer)
    {
      missing := HEADER_SIZE;
      buffer := new SystemBuffer();
    }

    // The caller fills the whole of `writable`.
    method Feed(src: bytes)
      requires Valid() && |src| == missing
      modifies buffer
      ensures Valid() && Value() == old(Value()).(data := old(Value()).data + src)
    {
      buffer.Write(src);
    }

    method NextFrame() returns (frame: Option<Sv2Frame>)
      requires Valid()
      modifies this, buffer
      ensures Valid() && (Value(), frame) == NextPlain(old(Value()))
    {
      var src := buffer.GetDataByRef(buffer.cursor);
      assert src == Value().data;
      var hint := SizeHint(src);
      if hint == 0 {
        missing := HEADER_SIZE;
        var owned := buffer.GetDataOwned();
        frame := Some(FromBytesUnchecked(owned));
      } else {
        missing := hint;
        frame := None;
      }
    }

    // The read loop of a plain connection, on the bytes at hand.
    method ReadLoop(wire: bytes) returns (frames: seq<Sv2Frame>, rest: bytes, open: bool)
      requires Valid() && missing > 0
      modifies this, buffer
      ensures Valid() && Reader(Value(), rest, frames, open) == Receive(old(Value()), wire)
    {
      frames, rest, open := [], wire, true;
      ghost var all := Receive(Value(), wire);
      assert [] + all.frames == all.frames;
      while |rest| >= missing
        invariant Valid() && missing > 0 && open
        invariant var r := Receive(Value(), rest); all == r.(frames := frames + r.frames)
        decreases |rest|
      {
        ghost var r := Receive(Value(), rest);
        Feed(rest[..missing]);
        rest := rest[missing..];
        var frame := NextFrame();
        if frame.Some? {
          assert frames + r.frames == (frames + [frame.value]) + Receive(Value(), rest).frames;
          frames := frames + [frame.value];
        } else if missing == NOISE_HANDSHAKE_SIZE_HINT {
          assert frames + [] == frames;
          open := false;
          return;
        }
      }
      assert frames + [] == frames;
    }
  }

  class PlainEncoder {
    var buffer: bytes

    constructor ()
    {
      buffer := [];
    }

    // Resizes the vector, which may hold an earlier frame, and serializes into it.
    method Encode(frame: Sv2Frame) returns (wire: bytes)
      requires frame.Valid()
      modifies this
      ensures wire == frame.Raw()
    {
      var len := frame.EncodedLength();
      buffer := if len <= |buffer| then buffer[..len] else buffer + Zeros(len - |buffer|);
      match frame {
        case Serialized(_, raw) => buffer := raw;
        case Message(header, payload) =>
          buffer := header.ToBytes() + buffer[HEADER_SIZE..];
          buffer := buffer[..HEADER_SIZE] + payload + buffer[HEADER_SIZE + |payload|..];
      }
      wire := buffer;
    }
  }
}
