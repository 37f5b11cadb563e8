/** Frames whose header declares another length than their payload has. The encoder seals them like any
    other; this is exactly what becomes of them, and of the link, in every run. */
module Misdeclared {
  import opened Bytes
  import opened Crypto
  import opened Framing
  import opened Transport
  import opened Channel

  // What opens has the length of the ciphertext, less one MAC for each chunk.
  lemma {:induction false} OpenedLength(key: bytes, n: nat, c: bytes, start: nat)
    requires start <= |c|
    ensures var m := OpenFrom(key, n, c, start);
            m.Some? ==> |m.value| + AEAD_MAC_LEN * PieceCount(|c| - start, CHUNK_SIZE) == |c| - start
    decreases |c| - start
  {
    if start < |c| {
      OpenedLength(key, n + 1, c, Min(start + CHUNK_SIZE, |c|));
    }
  }

  lemma {:induction false} ChunksOfEncrypted(len: nat)
    ensures PieceCount(EncryptedLen(len), CHUNK_SIZE) == Chunks(len)
  {
    if len > 0 {
      EncryptedLenStep(len);
      if len > PIECE_SIZE {
        ChunksOfEncrypted(len - PIECE_SIZE);
      }
    }
  }

  // So the payload put out has the declared length, and the frame is not the one sent.
  lemma NeverItself(key: bytes, n: nat, raw: bytes, c: bytes)
    requires |raw| >= HEADER_SIZE && !Declares(raw) && |c| == EncryptedLen(DeclaredLen(raw))
    ensures var m := OpenFrom(key, n, c, 0); m.Some? ==> raw[..HEADER_SIZE] + m.value != raw
  {
    hide OpenFrom, PieceCount, EncryptedLen;
    OpenedLength(key, n, c, 0);
    ChunksOfEncrypted(DeclaredLen(raw));
    EncryptedLenIs(DeclaredLen(raw));
  }

  lemma EncryptedLenIs(len: nat)
    ensures EncryptedLen(len) == len + Chunks(len) * AEAD_MAC_LEN
  {
  }

  // The length it declares is not one its sealed payload has: the next request is a wrong one.
  lemma AsksWrong(key: bytes, k: Packet)
    requires Packed(key, k) && !Declares(k.raw)
    ensures EncryptedLen(DeclaredLen(k.raw)) != |k.body|
  {
    var len, declared := |k.raw| - HEADER_SIZE, DeclaredLen(k.raw);
    SealFromLength(key, k.n + 1, k.raw, HEADER_SIZE);
    if declared < len { EncryptedLenStrict(declared, len); } else { EncryptedLenStrict(len, declared); }
  }

  // The frames put out so far, and those before a given one, declare their lengths.
  ghost predicate Declared(l: Link, w: nat) {
    w <= |l.sent| && forall i :: 0 <= i < w ==> Declares(l.sent[i].raw)
  }

  // In step: no frame put out was a false one.
  ghost predicate Before(l: Link) {
    InStep(l) && Declared(l, |l.got|)
  }

  // The header of a false frame was opened, and the decoder waits for the length it declares.
  ghost predicate Within(l: Link) {
    && Delivered(l) && |l.got| < |l.sent| && Declared(l, |l.got|) && !l.failed
    && var raw := l.sent[|l.got|].raw;
    && |raw| >= HEADER_SIZE && !Declares(raw)
    && l.dec == Dec(EncryptedLen(DeclaredLen(raw)), [], raw[..HEADER_SIZE])
    && |l.pending| <= l.dec.missing
  }

  // Its payload did not open.
  ghost predicate Stopped(l: Link) {
    Delivered(l) && |l.got| < |l.sent| && Declared(l, |l.got|) && l.failed && !Declares(l.sent[|l.got|].raw)
  }

  // Something else came out in its place.
  ghost predicate Astray(l: Link, w: nat) {
    && w < |l.got| && w < |l.sent| && Declared(l, w) && (forall i :: 0 <= i < w ==> l.got[i] == l.sent[i].raw)
    && !Declares(l.sent[w].raw) && l.got[w] != l.sent[w].raw
  }

  ghost predicate Known(l: Link) {
    SentSoundly(l) && (Before(l) || Within(l) || Stopped(l) || exists w: nat :: Astray(l, w))
  }

  // A step only ever adds to what was sent and to what was put out.
  lemma StepAdds(l: Link, e: Event)
    ensures l.sent <= Step(l, e).sent && l.got <= Step(l, e).got && |Step(l, e).got| <= |l.got| + 1
    ensures !e.Send? ==> Step(l, e).sent == l.sent
    ensures !e.Poll? ==> Step(l, e).got == l.got && Step(l, e).dec == l.dec && Step(l, e).failed == l.failed
    ensures e.Poll? && l.failed ==> Step(l, e) == l
  {
    hide Next, Ready, Pack;
  }

  lemma DeclaredStays(l: Link, e: Event, w: nat)
    requires Declared(l, w)
    ensures Declared(Step(l, e), w)
  {
    hide Step, Declares;
    StepAdds(l, e);
  }

  lemma SendKept(l: Link, frame: BuiltFrame)
    requires Known(l)
    ensures Known(Step(l, Send(frame)))
  {
    hide Step, SentSoundly, Good, Declares;
    var l' := Step(l, Send(frame));
    StepAdds(l, Send(frame));
    SendKeepsSender(l, frame);
    if Before(l) {
      SendKeepsGood(l, frame);
      DeclaredStays(l, Send(frame), |l.got|);
    } else if Within(l) {
      SendLeavesReader(l, frame);
    } else if !Stopped(l) {
      var w: nat :| Astray(l, w);
      assert Astray(l', w);
    }
  }

  lemma SendLeavesReader(l: Link, frame: BuiltFrame)
    ensures Step(l, Send(frame)).pending == l.pending
  {
  }

  lemma ReadKept(l: Link, count: nat)
    requires Known(l)
    ensures Known(Step(l, Read(count)))
  {
    hide Step, SentSoundly, Good, Declares, EncryptedLen;
    var l' := Step(l, Read(count));
    StepAdds(l, Read(count));
    ReadLeavesSender(l, count);
    if Before(l) {
      ReadKeepsGood(l, count);
    } else if !Within(l) && !Stopped(l) {
      var w: nat :| Astray(l, w);
      assert Astray(l', w);
    }
  }

  lemma ReadLeavesSender(l: Link, count: nat)
    ensures SentSoundly(l) ==> SentSoundly(Step(l, Read(count)))
    ensures |l.pending| <= l.dec.missing ==> |Step(l, Read(count)).pending| <= l.dec.missing
  {
  }

  lemma SameSender(l: Link, l': Link)
    requires SentSoundly(l) && l'.sendKey == l.sendKey && l'.sent == l.sent && l'.sendN == l.sendN
    ensures SentSoundly(l')
  {
  }

  // The decoder meets a false frame: it opens the header, and goes by what that declares.
  lemma PollMeetsFalse(l: Link)
    requires InStep(l) && Outstanding(l) != [] && !NextDeclares(l)
    ensures (InStep(Step(l, Poll)) && Step(l, Poll).got == l.got) || PolledInto(l)
  {
    if |l.pending| == l.dec.missing {
      if |l.dec.noise| + |l.pending| < ENCRYPTED_HEADER_SIZE {
        PollWaits(l);
        SameSender(l, Step(l, Poll));
      } else {
        PollOpensFalse(l);
      }
    }
  }

  ghost predicate PolledInto(l: Link)
    requires Delivered(l) && Outstanding(l) != []
  {
    var raw, l' := Outstanding(l)[0].raw, Step(l, Poll);
    && |raw| >= HEADER_SIZE && !l'.failed && l'.got == l.got && l'.pending == []
    && l'.dec == Dec(EncryptedLen(DeclaredLen(raw)), [], raw[..HEADER_SIZE])
  }

  lemma PollOpensFalse(l: Link)
    requires InStep(l) && Outstanding(l) != [] && AwaitingHeader(l) && |l.pending| == l.dec.missing
    requires |l.dec.noise| + |l.pending| == ENCRYPTED_HEADER_SIZE
    ensures PolledInto(l)
  {
    var d, k := Fed(l.dec, l.pending), Outstanding(l)[0];
    var rest := k.body + Flat(Outstanding(l)[1..]);
    PackedAt(l.sendKey, l.sent, |l.got|);
    assert d.noise + l.wire == Flat(Outstanding(l));
    assert d.noise + l.wire == k.head + rest;
    SplitAgrees(d.noise, l.wire, k.head, rest);
    assert k.raw[..HEADER_SIZE][3..6] == k.raw[3..6];
  }

  lemma PollBefore(l: Link)
    requires Known(l) && Before(l)
    ensures Known(Step(l, Poll))
  {
    hide Step, SentSoundly, Good, Declares;
    var l' := Step(l, Poll);
    StepAdds(l, Poll);
    InStepDelivered(l);
    if Outstanding(l) == [] || NextDeclares(l) {
      ReceiveKeepsStep(l, Poll);
      InStepDelivered(l');
    } else {
      PollMeetsFalse(l);
      PollSender(l);
    }
  }

  lemma PollSender(l: Link)
    requires SentSoundly(l)
    ensures SentSoundly(Step(l, Poll))
  {
    hide Next, Ready, AllPacked, Chained;
  }

  lemma PollWithin(l: Link)
    requires Known(l) && Within(l)
    ensures Known(Step(l, Poll))
  {
    hide SentSoundly, Declares, OpenFrom, EncryptedLen, PieceCount;
    var raw, w := l.sent[|l.got|].raw, |l.got|;
    var l', d := Step(l, Poll), Fed(l.dec, l.pending);
    PollSender(l);
    if |l.pending| == l.dec.missing {
      assert d.noise == l.pending;
      assert DeclaredLen(raw[..HEADER_SIZE]) == DeclaredLen(raw) by { assert raw[..HEADER_SIZE][3..6] == raw[3..6]; }
      NeverItself(l.recvKey, l.recvN, raw, d.noise);
      if !l'.failed {
        assert Astray(l', w);
      }
    }
  }

  lemma PollKept(l: Link)
    requires Known(l)
    ensures Known(Step(l, Poll))
  {
    hide Step, SentSoundly, Before, Within;
    StepAdds(l, Poll);
    if Before(l) {
      PollBefore(l);
    } else if Within(l) {
      PollWithin(l);
    } else if !Stopped(l) {
      PollSender(l);
      var w: nat :| Astray(l, w);
      assert Astray(Step(l, Poll), w);
    }
  }

  lemma {:induction false} RunKnown(l: Link, events: seq<Event>)
    requires Known(l)
    ensures Known(Run(l, events))
  {
    hide Step, Known;
    if events != [] {
      RunKnown(l, events[..|events| - 1]);
      var before := Run(l, events[..|events| - 1]);
      match events[|events| - 1]
      case Send(frame) => SendKept(before, frame);
      case Read(count) => ReadKept(before, count);
      case Poll => PollKept(before);
    }
  }

  lemma EveryRunIsKnown(key: bytes, hint: nat, events: seq<Event>)
    requires hint <= ENCRYPTED_HEADER_SIZE
    ensures Known(Run(Fresh(key, key, hint), events))
  {
    hide Run;
    FreshIsSound(key, hint);
    RunKnown(Fresh(key, key, hint), events);
  }

  // The first frame that does not declare its length, or the number of frames.
  ghost function FirstFalse(raws: seq<bytes>): (w: nat)
    ensures w <= |raws| && (w < |raws| ==> !Declares(raws[w]))
    ensures forall i :: 0 <= i < w ==> Declares(raws[i])
  {
    if raws == [] || !Declares(raws[0]) then 0 else 1 + FirstFalse(raws[1..])
  }

  lemma FirstFalseAfter(raws: seq<bytes>, v: nat)
    requires v <= |raws| && forall i :: 0 <= i < v ==> Declares(raws[i])
    ensures v <= FirstFalse(raws)
  {
  }

  lemma FirstFalseIs(raws: seq<bytes>, v: nat)
    requires v < |raws| && !Declares(raws[v]) && forall i :: 0 <= i < v ==> Declares(raws[i])
    ensures v == FirstFalse(raws)
  {
  }

  // What came out of one direction, given everything that was accepted: the frames before the first
  // false one come out in order; nothing fails before that one is reached; and what has come out is
  // what went in exactly as long as the reader has not got past it.
  ghost predicate DeliveredExactly(l: Link, accepted: seq<bytes>) {
    var w := FirstFalse(accepted);
    && (l.got <= accepted <==> |l.got| <= w)
    && (l.failed ==> w < |accepted| && w <= |l.got|)
    && (|l.got| > w ==> l.got[..w] == accepted[..w] && w < |accepted| && l.got[w] != accepted[w])
  }

  lemma PrefixAgrees(a: seq<bytes>, b: seq<bytes>, i: nat)
    requires i < |a| && i < |b|
    ensures a <= b ==> a[i] == b[i]
  {
  }

  lemma KnownDelivers(l: Link)
    requires Known(l)
    ensures DeliveredExactly(l, Raws(l.sent))
  {
    hide Declares, SentSoundly, AwaitingHeader, AwaitingPayload, EncryptedLen, DeclaredLen;
    var raws := Raws(l.sent);
    var w := FirstFalse(raws);
    if Before(l) || Within(l) || Stopped(l) {
      FirstFalseAfter(raws, |l.got|);
      assert l.got == raws[..|l.got|];
      if Within(l) || Stopped(l) { FirstFalseIs(raws, |l.got|); }
    } else {
      var v: nat :| Astray(l, v);
      FirstFalseIs(raws, v);
      assert l.got[..w] == raws[..w];
      assert !(l.got <= raws) by { PrefixAgrees(l.got, raws, w); }
    }
  }

  // In every run, whatever frames were sent.
  lemma EveryRunDeliversExactly(key: bytes, hint: nat, events: seq<Event>)
    requires hint <= ENCRYPTED_HEADER_SIZE
    ensures DeliveredExactly(Run(Fresh(key, key, hint), events), Accepted(events))
  {
    hide Run, Known, DeliveredExactly;
    EveryRunIsKnown(key, hint, events);
    KnownDelivers(Run(Fresh(key, key, hint), events));
    AcceptedAreSent(Fresh(key, key, hint), events);
    assert Raws([]) + Accepted(events) == Accepted(events);
  }

  // The sender's side of every run: nonces never repeat, whatever frames it is given.
  lemma EverySenderIsSound(key: bytes, hint: nat, events: seq<Event>)
    requires hint <= ENCRYPTED_HEADER_SIZE
    ensures SentSoundly(Run(Fresh(key, key, hint), events))
  {
    hide Run;
    EveryRunIsKnown(key, hint, events);
  }

  // A frame behind truthful ones can come out as itself exactly when it declares its length.
  lemma ArrivesExactly(key: bytes, hint: nat, events: seq<Event>, i: nat)
    requires hint <= ENCRYPTED_HEADER_SIZE
    requires i < |Accepted(events)| && forall j :: 0 <= j < i ==> Declares(Accepted(events)[j])
    ensures (exists more :: ComesOut(key, hint, events, more, i)) <==> Declares(Accepted(events)[i])
  {
    hide Run, Declares, DeliveredExactly;
    if Declares(Accepted(events)[i]) {
      var more := CanComeOut(key, hint, events, i);
      assert ComesOut(key, hint, events, more, i);
    } else if exists more :: ComesOut(key, hint, events, more, i) {
      var more :| ComesOut(key, hint, events, more, i);
      NeverComesOut(key, hint, events, more, i);
      assert false;
    }
  }

  ghost predicate ComesOut(key: bytes, hint: nat, events: seq<Event>, more: seq<Event>, i: nat)
    requires i < |Accepted(events)|
  {
    var l := Run(Fresh(key, key, hint), events + more);
    i < |l.got| && l.got[i] == Accepted(events)[i]
  }

  lemma {:induction false} AcceptedPrefix(events: seq<Event>, more: seq<Event>)
    ensures Accepted(events) <= Accepted(events + more)
    decreases |more|
  {
    if more == [] {
      assert events + more == events;
    } else {
      assert (events + more)[..|events + more| - 1] == events + more[..|more| - 1];
      AcceptedPrefix(events, more[..|more| - 1]);
    }
  }

  lemma NeverComesOut(key: bytes, hint: nat, events: seq<Event>, more: seq<Event>, i: nat)
    requires hint <= ENCRYPTED_HEADER_SIZE && i < |Accepted(events)| && !Declares(Accepted(events)[i])
    requires forall j :: 0 <= j < i ==> Declares(Accepted(events)[j])
    ensures !ComesOut(key, hint, events, more, i)
  {
    hide Run, Declares;
    var all := events + more;
    AcceptedPrefix(events, more);
    EveryRunDeliversExactly(key, hint, all);
    assert forall j :: 0 <= j <= i ==> Accepted(all)[j] == Accepted(events)[j];
    FirstFalseIs(Accepted(all), i);
  }

  lemma CanComeOut(key: bytes, hint: nat, events: seq<Event>, i: nat) returns (more: seq<Event>)
    requires hint <= ENCRYPTED_HEADER_SIZE && i < |Accepted(events)|
    requires forall j :: 0 <= j <= i ==> Declares(Accepted(events)[j])
    ensures ComesOut(key, hint, events, more, i)
  {
    hide Run, Declares, Known, InStep, DeliveredExactly;
    var l := Run(Fresh(key, key, hint), events);
    EveryRunIsKnown(key, hint, events);
    AcceptedAreSent(Fresh(key, key, hint), events);
    assert Raws([]) + Accepted(events) == Accepted(events);
    if |l.got| > i {
      more := [];
      assert events + [] == events;
      KnownDelivers(l);
      AlreadyOut(l, Accepted(events), i);
    } else {
      more := WillComeOut(l, i);
      RunConcat(Fresh(key, key, hint), events, more);
    }
  }

  lemma AlreadyOut(l: Link, accepted: seq<bytes>, i: nat)
    requires DeliveredExactly(l, accepted) && i < |l.got| && i < |accepted|
    requires forall j :: 0 <= j <= i ==> Declares(accepted[j])
    ensures l.got[i] == accepted[i]
  {
    hide Declares;
    FirstFalseAfter(accepted, i + 1);
    var w := FirstFalse(accepted);
    if |l.got| <= w {
      PrefixAgrees(l.got, accepted, i);
    } else {
      assert l.got[..w][i] == accepted[..w][i];
    }
  }

  lemma WillComeOut(l: Link, i: nat) returns (more: seq<Event>)
    requires Known(l) && |l.got| <= i < |l.sent| && forall j :: 0 <= j <= i ==> Declares(Raws(l.sent)[j])
    ensures var l' := Run(l, more); i < |l'.got| && l'.got[i] == Raws(l.sent)[i]
  {
    hide Run, Declares, Known, InStep;
    assert forall j :: 0 <= j <= i ==> Raws(l.sent)[j] == l.sent[j].raw;
    StillBefore(l, i);
    more := FramesArrive(l, i + 1);
    InStepDelivered(Run(l, more));
  }

  lemma StillBefore(l: Link, i: nat)
    requires Known(l) && |l.got| <= i < |l.sent| && Declared(l, i + 1)
    ensures InStep(l)
  {
    hide SentSoundly, Good, Declares, EncryptedLen;
  }

  // A header that declares two bytes, followed by one: sealed and sent, and never put out as itself,
  // whatever happens afterwards.
  lemma FalseFrameLost(key: bytes, hint: nat, events: seq<Event>)
    requires hint <= ENCRYPTED_HEADER_SIZE
    ensures var frame := FromBytesUnchecked([0, 0, 0, 2, 0, 0, 7]);
            var l := Run(Fresh(key, key, hint), [Send(frame)] + events);
            && Accepted([Send(frame)]) == [frame.Raw()]
            && (l.got == [] || l.got[0] != frame.Raw())
  {
    hide Run, Declares;
    var raw: bytes := [0, 0, 0, 2, 0, 0, 7];
    var frame := FromBytesUnchecked(raw);
    var first := [Send(frame)];
    assert first[..0] == [];
    assert Accepted(first) == [raw];
    assert !Declares(raw) by { SizeHintMiscounts(); MisdeclaredByOne(); }
    NeverComesOut(key, hint, first, events, 0);
  }

  lemma MisdeclaredByOne()
    ensures !Declares([0, 0, 0, 2, 0, 0, 7])
  {
    SizeHintMiscounts();
  }
}
