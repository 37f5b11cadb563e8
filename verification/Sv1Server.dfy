/** The Stratum V1 server over whole runs: which shares reach its submit handler. */
module Sv1Server {
  import opened Bytes
  import opened Hex
  import opened History
  import opened Sv1Requests
  import opened Sv1Responses
  import opened Sv1Methods

  // The state behind the setters and getters.
  datatype Server = Server(
    authorized: set<string>, extranonce1: bytes, extranonce2Size: nat, mask: Option<Word>, minBit: Option<Word>)

  // What the implementation's own handlers answer to one message.
  datatype Handlers = Handlers(
    authorizes: bool, accepts: bool, rolling: Option<RollingParams>, minimumDifficulty: Option<bool>,
    subscriptions: seq<(string, string)>, newExtranonce1: bytes, newExtranonce2Size: nat)

  datatype Incoming =
    | Receive(message: Message, handlers: Handlers)
    | UpdateExtranonce(extraNonce1: bytes, extraNonce2Size: nat)

  // What a step came to, and the share handed to the submit handler, if any.
  datatype Outcome = Outcome(reply: Reply, handed: Option<Submit>)

  datatype Reply = Says(message: Message) | Silent | Fails | ReaderPanicked | ImpossibleState

  // Version bits belong to a stored mask, and stay inside it.
  predicate BitsAllowed(mask: Option<Word>, bits: Option<Word>) {
    match bits
    case Some(b) => if mask.Some? then CheckMask(Bits(mask.value), Bits(b)) else false
    case None => mask == None
  }

  predicate ValidSubmission(s: Server, submit: Submit) {
    submit.userName in s.authorized && s.extranonce2Size == |submit.extraNonce2| &&
    BitsAllowed(s.mask, submit.versionBits)
  }

  // `handle_request`
  function HandleRequest(s: Server, r: ClientRequest, h: Handlers): (Server, Outcome) {
    match r
    case SuggestDifficulty => (s, Outcome(Silent, None))
    case AuthorizeRequest(a) =>
      (if h.authorizes then s.(authorized := s.authorized + {a.name}) else s,
       Outcome(Says(OkResponse(a.id, Bool(h.authorizes))), None))
    case ConfigureRequest(c) =>
      (s.(mask := MaskOf(c.extensions), minBit := MinBitOf(c.extensions)),
       Outcome(Says(PrintConfigured(Configured(c.id, h.rolling, h.minimumDifficulty))), None))
    case ExtranonceSubscribe => (s, Outcome(Silent, None))
    case SubmitRequest(submit) =>
      if ValidSubmission(s, submit) then (s, Outcome(Says(OkResponse(submit.id, Bool(h.accepts))), Some(submit)))
      else (s, Outcome(Fails, None))
    case SubscribeRequest(u) =>
      (s.(extranonce1 := h.newExtranonce1, extranonce2Size := h.newExtranonce2Size),
       Outcome(Says(PrintSubscribed(Subscribed(u.id, h.newExtranonce1, h.newExtranonce2Size, h.subscriptions))), None))
  }

  // `handle_message`: responses are not for a server.
  function HandleMessage(s: Server, m: Message, h: Handlers): (Server, Outcome) {
    if m.OkResponse? || m.ErrorResponse? then (s, Outcome(Fails, None))
    else
      match ReadMethod(m)
      case Reads(ForServer(r)) => HandleRequest(s, r, h)
      case Reads(_) => (s, Outcome(Fails, None))
      case Unknown => (s, Outcome(Fails, None))
      case BadParams => (s, Outcome(Fails, None))
      case ReaderPanics => (s, Outcome(ReaderPanicked, None))
      case ReaderImpossible => (s, Outcome(ImpossibleState, None))
  }

  function Step(s: Server, a: Incoming): (Server, Outcome) {
    match a
    case Receive(m, h) => HandleMessage(s, m, h)
    case UpdateExtranonce(e, size) =>
      (s.(extranonce1 := e, extranonce2Size := size), Outcome(Says(PrintSetExtranonce(SetExtranonce(e, size))), None))
  }

  function After(start: Server, run: seq<Incoming>): Server {
    if run == [] then start else Step(After(start, run[..|run| - 1]), run[|run| - 1]).0
  }

  function OutcomeAt(start: Server, run: seq<Incoming>, i: nat): Outcome
    requires i < |run|
  {
    Step(After(start, run[..i]), run[i]).1
  }

  // What the past can hold.

  ghost predicate Asks(a: Incoming, r: ClientRequest) {
    a.Receive? && !a.message.OkResponse? && ReadMethod(a.message) == Reads(ForServer(r))
  }

  ghost function Asked(a: Incoming): Option<ClientRequest> {
    if a.Receive? && !a.message.OkResponse? && ReadMethod(a.message).Reads? && ReadMethod(a.message).method_.ForServer?
    then Some(ReadMethod(a.message).method_.request) else None
  }

  ghost predicate Allows(a: Incoming, name: string) {
    && Asked(a).Some? && Asked(a).value.AuthorizeRequest? && Asked(a).value.authorize.name == name
    && a.handlers.authorizes
  }

  // The size a step sets, and the mask a step stores, if it does.
  ghost function SetsSize(a: Incoming): Option<nat> {
    if a.UpdateExtranonce? then Some(a.extraNonce2Size)
    else if Asked(a).Some? && Asked(a).value.SubscribeRequest? then Some(a.handlers.newExtranonce2Size)
    else None
  }

  ghost predicate Configures(a: Incoming) {
    Asked(a).Some? && Asked(a).value.ConfigureRequest?
  }

  ghost function AskedMask(es: seq<Extension>): (mask: Option<Word>)
    ensures exists min :: AsksFor(es, mask, min)
  {
    MaskIsLast(es);
    var mask, min :| AsksFor(es, mask, min);
    mask
  }

  ghost function AskedMinBit(es: seq<Extension>): (min: Option<Word>)
    ensures exists mask :: AsksFor(es, mask, min)
  {
    MaskIsLast(es);
    var mask, min :| AsksFor(es, mask, min);
    min
  }

  ghost function SetsMask(a: Incoming): Option<Option<Word>> {
    if Configures(a) then Some(AskedMask(Asked(a).value.configure.extensions)) else None
  }

  ghost function SetsMinBit(a: Incoming): Option<Option<Word>> {
    if Configures(a) then Some(AskedMinBit(Asked(a).value.configure.extensions)) else None
  }

  ghost function SetsExtranonce(a: Incoming): Option<bytes> {
    if a.UpdateExtranonce? then Some(a.extraNonce1)
    else if Asked(a).Some? && Asked(a).value.SubscribeRequest? then Some(a.handlers.newExtranonce1)
    else None
  }

  ghost function Sizes(run: seq<Incoming>): seq<Option<nat>> {
    seq(|run|, i requires 0 <= i < |run| => SetsSize(run[i]))
  }

  ghost function Masks(run: seq<Incoming>): seq<Option<Option<Word>>> {
    seq(|run|, i requires 0 <= i < |run| => SetsMask(run[i]))
  }

  ghost function MinBits(run: seq<Incoming>): seq<Option<Option<Word>>> {
    seq(|run|, i requires 0 <= i < |run| => SetsMinBit(run[i]))
  }

  ghost function Extranonces(run: seq<Incoming>): seq<Option<bytes>> {
    seq(|run|, i requires 0 <= i < |run| => SetsExtranonce(run[i]))
  }

  ghost predicate WasAllowed(start: Server, run: seq<Incoming>, name: string) {
    name in start.authorized || exists j :: 0 <= j < |run| && Allows(run[j], name)
  }

  ghost predicate Consistent(start: Server, run: seq<Incoming>, s: Server) {
    && (forall name :: name in s.authorized <==> WasAllowed(start, run, name))
    && Latest<nat>(Sizes(run), start.extranonce2Size, s.extranonce2Size)
    && Latest<Option<Word>>(Masks(run), start.mask, s.mask)
    && Latest<Option<Word>>(MinBits(run), start.minBit, s.minBit)
    && Latest<bytes>(Extranonces(run), start.extranonce1, s.extranonce1)
  }

  lemma StepEffects(s: Server, a: Incoming)
    ensures forall name :: name in Step(s, a).0.authorized <==> name in s.authorized || Allows(a, name)
    ensures Step(s, a).0.extranonce2Size == if SetsSize(a).Some? then SetsSize(a).value else s.extranonce2Size
    ensures Step(s, a).0.mask == if SetsMask(a).Some? then SetsMask(a).value else s.mask
    ensures Step(s, a).0.minBit == if SetsMinBit(a).Some? then SetsMinBit(a).value else s.minBit
    ensures Step(s, a).0.extranonce1 == if SetsExtranonce(a).Some? then SetsExtranonce(a).value else s.extranonce1
  {
    hide ReadMethod, MaskOf, MinBitOf, AskedMask, AskedMinBit;
    if Configures(a) { AskedIs(Asked(a).value.configure.extensions); }
    if a.Receive? && a.message.ErrorResponse? {
      assert ReadMethod(a.message) == Reads(ErrorMessage) by { ErrorsAreNoRequests(a.message); }
    }
  }

  lemma AskedIs(es: seq<Extension>)
    ensures AskedMask(es) == MaskOf(es) && AskedMinBit(es) == MinBitOf(es)
  {
    hide AsksFor;
    var min :| AsksFor(es, AskedMask(es), min);
    AsksForOne(es, AskedMask(es), min);
    var mask :| AsksFor(es, mask, AskedMinBit(es));
    AsksForOne(es, mask, AskedMinBit(es));
  }

  lemma ErrorsAreNoRequests(m: Message)
    requires m.ErrorResponse?
    ensures ReadMethod(m) == Reads(ErrorMessage)
  {
  }

  lemma ConsistentStep(start: Server, run: seq<Incoming>, s: Server, a: Incoming)
    requires Consistent(start, run, s)
    ensures Consistent(start, run + [a], Step(s, a).0)
  {
    hide Step, Allows, SetsSize, SetsMask, SetsMinBit, SetsExtranonce, Latest;
    var all, s' := run + [a], Step(s, a).0;
    StepEffects(s, a);
    assert Sizes(all) == Sizes(run) + [SetsSize(a)];
    assert Masks(all) == Masks(run) + [SetsMask(a)];
    LatestStep<nat>(Sizes(run), start.extranonce2Size, s.extranonce2Size, SetsSize(a));
    assert MinBits(all) == MinBits(run) + [SetsMinBit(a)];
    assert Extranonces(all) == Extranonces(run) + [SetsExtranonce(a)];
    LatestStep<Option<Word>>(Masks(run), start.mask, s.mask, SetsMask(a));
    LatestStep<Option<Word>>(MinBits(run), start.minBit, s.minBit, SetsMinBit(a));
    LatestStep<bytes>(Extranonces(run), start.extranonce1, s.extranonce1, SetsExtranonce(a));
    forall name ensures name in s'.authorized <==> WasAllowed(start, all, name) {
      AllowedStep(start, run, a, name);
    }
  }

  lemma AllowedStep(start: Server, run: seq<Incoming>, a: Incoming, name: string)
    ensures WasAllowed(start, run + [a], name) <==> WasAllowed(start, run, name) || Allows(a, name)
  {
    hide Allows;
    var all := run + [a];
    assert all[|run|] == a;
    assert forall j :: 0 <= j < |run| ==> all[j] == run[j];
  }

  // Every reachable server fits its past.
  lemma {:induction false} RunConsistent(start: Server, run: seq<Incoming>)
    ensures Consistent(start, run, After(start, run))
  {
    hide Step, Latest, Allows;
    if run == [] {
      LatestEmpty<nat>(start.extranonce2Size);
      LatestEmpty<Option<Word>>(start.mask);
      LatestEmpty<Option<Word>>(start.minBit);
      LatestEmpty<bytes>(start.extranonce1);
      assert Sizes(run) == [] && Masks(run) == [] && MinBits(run) == [] && Extranonces(run) == [];
    } else {
      var before, a := run[..|run| - 1], run[|run| - 1];
      RunConsistent(start, before);
      ConsistentStep(start, before, After(start, before), a);
      assert run == before + [a];
    }
  }

  // The version bits against the mask stored last: both or neither, and no bit outside (BIP 310).
  ghost predicate BitsFit(mask: Option<Word>, bits: Option<Word>) {
    && (bits.Some? <==> mask.Some?)
    && (bits.Some? ==> Contained(Bits(mask.value), Bits(bits.value)))
  }

  lemma BitsAllowedExact(mask: Option<Word>, bits: Option<Word>)
    ensures BitsAllowed(mask, bits) <==> BitsFit(mask, bits)
  {
    hide CheckMask, Contained, Bits;
    if bits.Some? && mask.Some? { CheckMaskExact(Bits(mask.value), Bits(bits.value)); }
  }

  // What lets a share through, in terms of the past alone.
  ghost predicate MayHand(start: Server, past: seq<Incoming>, submit: Submit) {
    && WasAllowed(start, past, submit.userName)
    && Latest<nat>(Sizes(past), start.extranonce2Size, |submit.extraNonce2|)
    && exists mask :: Latest<Option<Word>>(Masks(past), start.mask, mask) && BitsFit(mask, submit.versionBits)
  }

  // A share reaches the handler exactly when its name was authorized in an earlier step, its
  // extranonce2 has the length set last, and its version bits fit the mask stored last; otherwise
  // the submission is an error.
  lemma SubmitHandedExactly(start: Server, run: seq<Incoming>, i: nat, submit: Submit)
    requires i < |run| && Asks(run[i], SubmitRequest(submit))
    ensures var o := OutcomeAt(start, run, i);
            && (o.handed == Some(submit) <==> MayHand(start, run[..i], submit))
            && (o.handed != Some(submit) ==> o == Outcome(Fails, None))
  {
    hide Latest, BitsAllowed, BitsFit, ReadMethod, WasAllowed;
    var past := run[..i];
    var s := After(start, past);
    RunConsistent(start, past);
    BitsAllowedExact(s.mask, submit.versionBits);
    SubmitStep(s, run[i], submit);
    if Latest<nat>(Sizes(past), start.extranonce2Size, |submit.extraNonce2|) {
      LatestUnique<nat>(Sizes(past), start.extranonce2Size, s.extranonce2Size, |submit.extraNonce2|);
    }
    if exists mask :: Latest<Option<Word>>(Masks(past), start.mask, mask) && BitsFit(mask, submit.versionBits) {
      var mask :| Latest<Option<Word>>(Masks(past), start.mask, mask) && BitsFit(mask, submit.versionBits);
      LatestUnique<Option<Word>>(Masks(past), start.mask, s.mask, mask);
    }
  }

  lemma SubmitStep(s: Server, a: Incoming, submit: Submit)
    requires Asks(a, SubmitRequest(submit))
    ensures Step(s, a).1.handed == (if ValidSubmission(s, submit) then Some(submit) else None)
    ensures !ValidSubmission(s, submit) ==> Step(s, a).1 == Outcome(Fails, None)
  {
    hide ValidSubmission;
    if a.message.ErrorResponse? { ErrorsAreNoRequests(a.message); }
  }

  // Nothing else reaches it, and no message is an impossible one.
  lemma OnlySubmitsHanded(s: Server, a: Incoming)
    ensures Step(s, a).1.handed.Some? ==> Asks(a, SubmitRequest(Step(s, a).1.handed.value))
    ensures Step(s, a).1.reply != ImpossibleState
  {
    hide ReadMethod;
    if a.Receive? { ReadNeverImpossible(a.message); }
  }

  // What every step comes to, in terms of the past: what the client will read the reply as, and the
  // share handed on.
  ghost predicate RequestFits(start: Server, past: seq<Incoming>, r: ClientRequest, h: Handlers, o: Outcome) {
    match r
    case SuggestDifficulty => o == Outcome(Silent, None)
    case ExtranonceSubscribe => o == Outcome(Silent, None)
    case AuthorizeRequest(a) => o == Outcome(Says(OkResponse(a.id, Bool(h.authorizes))), None)
    case ConfigureRequest(c) =>
      && o.handed == None && o.reply.Says?
      && ReadMethod(o.reply.message) ==
         Reads(Answer(ConfigureResponse(Configured(c.id, h.rolling, h.minimumDifficulty))))
    case SubscribeRequest(u) =>
      && o.handed == None && o.reply.Says?
      && (|h.newExtranonce1| <= 32 ==>
            ReadMethod(o.reply.message) == Reads(Answer(SubscribeResponse(
              Subscribed(u.id, h.newExtranonce1, h.newExtranonce2Size, h.subscriptions)))))
    case SubmitRequest(submit) =>
      o == if MayHand(start, past, submit) then Outcome(Says(OkResponse(submit.id, Bool(h.accepts))), Some(submit))
           else Outcome(Fails, None)
  }

  ghost predicate OutcomeFits(start: Server, past: seq<Incoming>, a: Incoming, o: Outcome) {
    match a
    case Receive(m, h) =>
      (match ReadMethod(m)
       case Reads(ForServer(r)) => RequestFits(start, past, r, h, o)
       case ReaderPanics => o == Outcome(if m.OkResponse? then Fails else ReaderPanicked, None)
       case _ => o == Outcome(Fails, None))
    case UpdateExtranonce(e, size) =>
      && o.handed == None && o.reply.Says?
      && (|e| <= 32 ==> ReadMethod(o.reply.message) == Reads(ForClient(ExtranonceNotice(SetExtranonce(e, size)))))
  }

  lemma EveryOutcomeFits(start: Server, run: seq<Incoming>, i: nat)
    requires i < |run|
    ensures OutcomeFits(start, run[..i], run[i], OutcomeAt(start, run, i))
  {
    hide ReadMethod, MayHand, ValidSubmission, MaskOf, MinBitOf, RequestFits, HandleRequest;
    var s, a := After(start, run[..i]), run[i];
    match a
    case UpdateExtranonce(e, size) => AnnouncementRead(e, size);
    case Receive(m, h) =>
      ReadNeverImpossible(m);
      if m.OkResponse? || m.ErrorResponse? {
        ResponsesAreNoRequests(m);
      } else if ReadMethod(m).Reads? && ReadMethod(m).method_.ForServer? {
        var r := ReadMethod(m).method_.request;
        if r.SubmitRequest? {
          SubmitHandedExactly(start, run, i, r.submit);
          SubmitStep(s, a, r.submit);
        }
        RequestOutcome(start, run[..i], s, r, h);
      }
  }

  lemma ResponsesAreNoRequests(m: Message)
    requires m.OkResponse? || m.ErrorResponse?
    ensures ReadMethod(m).Reads? ==> !ReadMethod(m).method_.ForServer?
    ensures m.ErrorResponse? ==> ReadMethod(m) == Reads(ErrorMessage)
  {
  }

  lemma AnnouncementRead(e: bytes, size: nat)
    ensures |e| <= 32 ==>
              ReadMethod(PrintSetExtranonce(SetExtranonce(e, size))) ==
              Reads(ForClient(ExtranonceNotice(SetExtranonce(e, size))))
  {
    hide ParseSetExtranonce, ParseNotify;
    NoticeNames();
    if |e| <= 32 { SetExtranonceRoundTrip(SetExtranonce(e, size)); }
  }

  lemma RequestOutcome(start: Server, past: seq<Incoming>, s: Server, r: ClientRequest, h: Handlers)
    requires r.SubmitRequest? ==> (ValidSubmission(s, r.submit) <==> MayHand(start, past, r.submit))
    ensures RequestFits(start, past, r, h, HandleRequest(s, r, h).1)
  {
    hide ReadMethod, MayHand, ValidSubmission, MaskOf, MinBitOf, PrintConfigured, PrintSubscribed;
    match r
    case ConfigureRequest(c) =>
      AnswersRead(Subscribed(0, [], 0, []), Configured(c.id, h.rolling, h.minimumDifficulty), 0, true);
    case SubscribeRequest(u) =>
      var subscribed := Subscribed(u.id, h.newExtranonce1, h.newExtranonce2Size, h.subscriptions);
      if |h.newExtranonce1| <= 32 { AnswersRead(subscribed, Configured(0, None, None), 0, true); }
    case _ =>
  }

  class ServerConnection {
    var authorized: set<string>
    var extranonce1: bytes
    var extranonce2Size: nat
    var mask: Option<Word>
    var minBit: Option<Word>

    ghost function Value(): Server
      reads this
    {
      Server(authorized, extranonce1, extranonce2Size, mask, minBit)
    }

    constructor (extranonce1: bytes, extranonce2Size: nat)
      ensures Value() == Server({}, extranonce1, extranonce2Size, None, None)
    {
      authorized, mask, minBit := {}, None, None;
      this.extranonce1, this.extranonce2Size := extranonce1, extranonce2Size;
    }

    method Handle(r: ClientRequest, h: Handlers) returns (o: Outcome)
      modifies this
      ensures (Value(), o) == HandleRequest(old(Value()), r, h)
    {
      match r {
        case SuggestDifficulty => o := Outcome(Silent, None);
        case AuthorizeRequest(a) =>
          if h.authorizes {
            authorized := authorized + {a.name};
          }
          o := Outcome(Says(OkResponse(a.id, Bool(h.authorizes))), None);
        case ConfigureRequest(c) =>
          mask := VersionRollingMask(c);
          minBit := VersionRollingMinBitCount(c);
          o := Outcome(Says(PrintConfigured(Configured(c.id, h.rolling, h.minimumDifficulty))), None);
        case ExtranonceSubscribe => o := Outcome(Silent, None);
        case SubmitRequest(submit) => o := Judge(submit, h);
        case SubscribeRequest(u) =>
          extranonce1 := h.newExtranonce1;
          extranonce2Size := h.newExtranonce2Size;
          o := Outcome(Says(PrintSubscribed(Subscribed(u.id, extranonce1, extranonce2Size, h.subscriptions))), None);
      }
    }

    method Judge(submit: Submit, h: Handlers) returns (o: Outcome)
      ensures (Value(), o) == HandleRequest(Value(), SubmitRequest(submit), h)
    {
      var hasValidVersionBits;
      match submit.versionBits {
        case Some(a) =>
          if mask.Some? {
            hasValidVersionBits := CheckMask(Bits(mask.value), Bits(a));
          } else {
            hasValidVersionBits := false;
          }
        case None => hasValidVersionBits := mask == None;
      }
      var valid := submit.userName in authorized && extranonce2Size == |submit.extraNonce2| && hasValidVersionBits;
      if valid {
        o := Outcome(Says(OkResponse(submit.id, Bool(h.accepts))), Some(submit));
      } else {
        o := Outcome(Fails, None);
      }
    }

    method Message(m: Sv1Requests.Message, h: Handlers) returns (o: Outcome)
      modifies this
      ensures (Value(), o) == Step(old(Value()), Receive(m, h)) && o.reply != ImpossibleState
    {
      hide ReadMethod, HandleRequest;
      OnlySubmitsHanded(Value(), Receive(m, h));
      if m.OkResponse? || m.ErrorResponse? {
        return Outcome(Fails, None);
      }
      match ReadMethod(m) {
        case Reads(ForServer(r)) => o := Handle(r, h);
        case Reads(_) => o := Outcome(Fails, None);
        case Unknown => o := Outcome(Fails, None);
        case BadParams => o := Outcome(Fails, None);
        case ReaderPanics => o := Outcome(ReaderPanicked, None);
        case ReaderImpossible => o := Outcome(ImpossibleState, None);
      }
    }

    method Update(e: bytes, size: nat) returns (o: Outcome)
      modifies this
      ensures (Value(), o) == Step(old(Value()), UpdateExtranonce(e, size))
    {
      extranonce1 := e;
      extranonce2Size := size;
      o := Outcome(Says(PrintSetExtranonce(SetExtranonce(e, size))), None);
    }

    // The object goes through every run as the step function does.
    method Replay(run: seq<Incoming>) returns (outcomes: seq<Outcome>)
      modifies this
      ensures Value() == After(old(Value()), run) && |outcomes| == |run|
      ensures forall i :: 0 <= i < |run| ==> outcomes[i] == OutcomeAt(old(Value()), run, i)
      ensures forall i :: 0 <= i < |run| ==> OutcomeFits(old(Value()), run[..i], run[i], outcomes[i])
      ensures forall i, submit :: 0 <= i < |run| && Asks(run[i], SubmitRequest(submit)) ==>
                (outcomes[i].handed == Some(submit) <==> MayHand(old(Value()), run[..i], submit))
      ensures forall i :: 0 <= i < |run| && outcomes[i].handed.Some? ==>
              Asks(run[i], SubmitRequest(outcomes[i].handed.value))
    {
      hide Step, MayHand, Asks, OutcomeFits;
      outcomes := [];
      ghost var start := Value();
      for i := 0 to |run|
        invariant Value() == After(start, run[..i]) && |outcomes| == i
        invariant forall k :: 0 <= k < i ==> outcomes[k] == OutcomeAt(start, run, k)
      {
        var o;
        match run[i] {
          case Receive(m, h) => o := Message(m, h);
          case UpdateExtranonce(e, size) => o := Update(e, size);
        }
        assert run[..i + 1][..i] == run[..i];
        outcomes := outcomes + [o];
      }
      assert run[..|run|] == run;
      forall i | 0 <= i < |run| ensures OutcomeFits(start, run[..i], run[i], outcomes[i]) {
        EveryOutcomeFits(start, run, i);
      }
      forall i, submit | 0 <= i < |run| && Asks(run[i], SubmitRequest(submit))
        ensures outcomes[i].handed == Some(submit) <==> MayHand(start, run[..i], submit)
      {
        SubmitHandedExactly(start, run, i, submit);
      }
      forall i | 0 <= i < |run| && outcomes[i].handed.Some?
        ensures Asks(run[i], SubmitRequest(outcomes[i].handed.value))
      {
        OnlySubmitsHanded(After(start, run[..i]), run[i]);
      }
    }
  }
}
