/** The Stratum V1 client over whole runs: what it sends, and when. */
module Sv1Client {
  import opened Bytes
  import opened Hex
  import opened History
  import opened Sv1Requests
  import opened Sv1Responses
  import opened Sv1Methods

  datatype Status = Init | IsConfigured | IsSubscribed

  // The state behind the setters and getters, with the client's own records of what it sent.
  datatype Client = Client(
    status: Status, mask: Option<Word>, minBit: Option<Word>, extranonce1: bytes, extranonce2Size: nat,
    authorized: set<string>, asked: map<nat, string>, submitted: set<nat>, notified: Option<Notify>)

  // Everything that can happen to a client. `accepted` is whether its own handler agrees.
  datatype Action =
    | Receive(message: Message, accepted: bool)
    | AskConfigure(id: nat)
    | AskSubscribe(id: nat, extranonce1: Option<bytes>)
    | AskAuthorize(id: nat, name: string, password: string)
    | AskSubmit(id: nat, userName: string, extraNonce2: bytes, time: Word, nonce: Word, versionBits: Option<Word>)

  datatype Outcome = Sends(message: Message) | Silent | Fails | ReaderPanicked | ImpossibleState

  // What the client says of itself.
  const SIGNATURE: string
  const FIRST_EXTRANONCE: bytes := [8, 0, 0, 2]

  const START: Client := Client(Init, None, None, [], 0, {}, map[], {}, None)

  // `update_response`: a boolean answers an authorize request if its id is known as one, is an error
  // if its id is known as a submit, and is taken for a submit if it is not known at all.
  function UpdateResponse(c: Client, r: Response): Option<Response> {
    if !r.GeneralResponse? then Some(r)
    else if r.id in c.submitted then None
    else if r.id in c.asked then Some(AuthorizeResponse(c.asked[r.id], r.flag))
    else Some(SubmitResponse)
  }

  function SubscribeMessage(id: nat, extranonce1: Option<bytes>): Message {
    PrintSubscribe(Subscribe(id, SIGNATURE, extranonce1))
  }

  // `handle_response`
  function HandleResponse(c: Client, r: Response, accepted: bool): (Client, Outcome) {
    match r
    case ConfigureResponse(configured) =>
      if !accepted then (c, Fails)
      else
        (c.(mask := configured.Mask(), minBit := configured.MinBit(), status := IsConfigured),
         Sends(SubscribeMessage(configured.id, Some(FIRST_EXTRANONCE))))
    case SubscribeResponse(s) =>
      if !accepted then (c, Fails)
      else (c.(extranonce1 := s.extraNonce1, extranonce2Size := s.extraNonce2Size, status := IsSubscribed), Silent)
    case AuthorizeResponse(name, ok) => (if ok then c.(authorized := c.authorized + {name}) else c, Silent)
    case SubmitResponse => (c, Silent)
    case GeneralResponse(_, _) => (c, ImpossibleState)
  }

  // `handle_request`: the handlers keep what they are given.
  function HandleNotice(c: Client, n: Notice, accepted: bool): (Client, Outcome) {
    if !accepted then (c, Fails)
    else
      match n
      case NotifyNotice(notify) => (c.(notified := Some(notify)), Silent)
      case ExtranonceNotice(e) => (c.(extranonce1 := e.extraNonce1, extranonce2Size := e.extraNonce2Size), Silent)
      case MaskNotice(mask) => (c.(mask := Some(mask)), Silent)
      case DifficultyNotice => (c, Silent)
  }

  // `handle_message`
  function HandleMessage(c: Client, m: Message, accepted: bool): (Client, Outcome) {
    match ReadMethod(m)
    case Reads(Answer(response)) =>
      (match UpdateResponse(c, response)
       case None => (c, Fails)
       case Some(r) => HandleResponse(c, r, accepted))
    case Reads(ForClient(notice)) => HandleNotice(c, notice, accepted)
    case Reads(ForServer(_)) => (c, Fails)
    case Reads(ErrorMessage) => (c, if accepted then Silent else Fails)
    case Unknown => (c, Fails)
    case BadParams => (c, Fails)
    case ReaderPanics => (c, ReaderPanicked)
    case ReaderImpossible => (c, ImpossibleState)
  }

  function AuthorizeStep(c: Client, id: nat, name: string, password: string): (Client, Outcome) {
    if c.status == Init then (c, Fails)
    else (c.(asked := c.asked[id := name]), Sends(PrintAuthorize(Authorize(id, name, password))))
  }

  function SubmitMessage(a: Action, jobId: string): Message
    requires a.AskSubmit?
  {
    PrintSubmit(Submit(a.userName, jobId, a.extraNonce2, a.time, a.nonce, a.versionBits, a.id))
  }

  function SubmitStep(c: Client, a: Action): (Client, Outcome)
    requires a.AskSubmit?
  {
    if c.status == Init || c.notified == None || a.userName !in c.authorized then (c, Fails)
    else
      (c.(submitted := c.submitted + {a.id}), Sends(SubmitMessage(a, c.notified.value.jobId)))
  }

  function ConfigureMessage(c: Client, id: nat): Message {
    PrintConfigure(Configure(if c.mask == None && c.minBit == None then [] else [VersionRolling(c.mask, c.minBit)], id))
  }

  function Step(c: Client, a: Action): (Client, Outcome) {
    match a
    case Receive(m, accepted) => HandleMessage(c, m, accepted)
    case AskConfigure(id) => (c, Sends(ConfigureMessage(c, id)))
    case AskSubscribe(id, extranonce1) =>
      (c, if c.status == Init then Fails else Sends(SubscribeMessage(id, extranonce1)))
    case AskAuthorize(id, name, password) => AuthorizeStep(c, id, name, password)
    case AskSubmit(_, _, _, _, _, _) => SubmitStep(c, a)
  }

  // The client after a run, and what a run's steps came to.
  function After(actions: seq<Action>): Client {
    if actions == [] then START else Step(After(actions[..|actions| - 1]), actions[|actions| - 1]).0
  }

  function OutcomeAt(actions: seq<Action>, i: nat): Outcome
    requires i < |actions|
  {
    Step(After(actions[..i]), actions[i]).1
  }

  // What the past can hold.

  ghost predicate Opening(a: Action) {
    && a.Receive? && a.accepted
    && var r := ReadMethod(a.message);
       r.Reads? && r.method_.Answer? && (r.method_.response.ConfigureResponse? || r.method_.response.SubscribeResponse?)
  }

  ghost predicate Notifies(a: Action) {
    a.Receive? && a.accepted && ReadMethod(a.message).Reads? && ReadMethod(a.message).method_.ForClient?
    && ReadMethod(a.message).method_.notice.NotifyNotice?
  }

  // The state an opening response leads to, and the job a notify brings.
  ghost function StatusOf(a: Action): (status: Status)
    requires Opening(a)
    ensures status != Init
  {
    if ReadMethod(a.message).method_.response.ConfigureResponse? then IsConfigured else IsSubscribed
  }

  ghost function NotifyOf(a: Action): Notify
    requires Notifies(a)
  {
    ReadMethod(a.message).method_.notice.notify
  }

  // The latest opening response, and the latest notify.
  ghost predicate LastOpeningAt(actions: seq<Action>, i: nat) {
    i < |actions| && Opening(actions[i]) && forall j :: i < j < |actions| ==> !Opening(actions[j])
  }

  ghost predicate LastNotifyAt(actions: seq<Action>, i: nat) {
    i < |actions| && Notifies(actions[i]) && forall j :: i < j < |actions| ==> !Notifies(actions[j])
  }

  // The mask, the bit count and the extranonce a step stores, if it does.
  ghost function Taken(a: Action): Option<Method> {
    if a.Receive? && a.accepted && ReadMethod(a.message).Reads? then Some(ReadMethod(a.message).method_) else None
  }

  ghost function SetsMask(a: Action): Option<Option<Word>> {
    match Taken(a)
    case Some(Answer(ConfigureResponse(c))) =>
      Some(if c.rolling.Some? && c.rolling.value.rolling then Some(c.rolling.value.mask) else None)
    case Some(ForClient(MaskNotice(mask))) => Some(Some(mask))
    case _ => None
  }

  ghost function SetsMinBit(a: Action): Option<Option<Word>> {
    match Taken(a)
    case Some(Answer(ConfigureResponse(c))) =>
      Some(if c.rolling.Some? && c.rolling.value.rolling then Some(c.rolling.value.minBitCount) else None)
    case _ => None
  }

  ghost function SetsExtranonce(a: Action): Option<(bytes, nat)> {
    match Taken(a)
    case Some(Answer(SubscribeResponse(s))) => Some((s.extraNonce1, s.extraNonce2Size))
    case Some(ForClient(ExtranonceNotice(e))) => Some((e.extraNonce1, e.extraNonce2Size))
    case _ => None
  }

  ghost function Masks(actions: seq<Action>): seq<Option<Option<Word>>> {
    seq(|actions|, i requires 0 <= i < |actions| => SetsMask(actions[i]))
  }

  ghost function MinBits(actions: seq<Action>): seq<Option<Option<Word>>> {
    seq(|actions|, i requires 0 <= i < |actions| => SetsMinBit(actions[i]))
  }

  ghost function Extranonces(actions: seq<Action>): seq<Option<(bytes, nat)>> {
    seq(|actions|, i requires 0 <= i < |actions| => SetsExtranonce(actions[i]))
  }

  ghost predicate SettingsFit(actions: seq<Action>, c: Client) {
    && Latest<Option<Word>>(Masks(actions), None, c.mask)
    && Latest<Option<Word>>(MinBits(actions), None, c.minBit)
    && Latest<(bytes, nat)>(Extranonces(actions), ([], 0), (c.extranonce1, c.extranonce2Size))
  }

  ghost predicate Confirms(a: Action, id: nat) {
    a.Receive? && a.message == OkResponse(id, Bool(true))
  }

  // An authorize request under the id goes out.
  ghost predicate AsksAt(actions: seq<Action>, i: nat, id: nat) {
    i < |actions| && actions[i].AskAuthorize? && actions[i].id == id && OutcomeAt(actions, i).Sends?
  }

  function NameAt(actions: seq<Action>, i: nat): string {
    if i < |actions| && actions[i].AskAuthorize? then actions[i].name else ""
  }

  // The latest one under that id.
  ghost predicate LastAskAt(actions: seq<Action>, i: nat, id: nat) {
    AsksAt(actions, i, id) && forall j: nat :: i < j < |actions| ==> !AsksAt(actions, j, id)
  }

  ghost predicate SubmitsAt(actions: seq<Action>, i: nat, id: nat) {
    i < |actions| && actions[i].AskSubmit? && actions[i].id == id && OutcomeAt(actions, i).Sends?
  }

  ghost predicate KnownSubmit(actions: seq<Action>, id: nat) {
    exists i: nat :: SubmitsAt(actions, i, id)
  }

  // An action authorizes a name: it answers true to an id that is no submit's, and the latest authorize
  // request under that id was for the name.
  ghost predicate Authorizes(past: seq<Action>, a: Action, name: string) {
    exists id: nat, i: nat ::
      Confirms(a, id) && LastAskAt(past, i, id) && NameAt(past, i) == name && !KnownSubmit(past, id)
  }

  ghost predicate WasAuthorized(actions: seq<Action>, name: string) {
    exists k: nat :: k < |actions| && Authorizes(actions[..k], actions[k], name)
  }

  ghost predicate AskedFits(actions: seq<Action>, c: Client) {
    && (forall id: nat, i: nat :: LastAskAt(actions, i, id) ==> id in c.asked && c.asked[id] == NameAt(actions, i))
    && (forall id: nat :: id in c.asked ==> exists i: nat :: LastAskAt(actions, i, id))
  }

  ghost predicate StatusFits(actions: seq<Action>, c: Client) {
    if c.status == Init then forall i :: 0 <= i < |actions| ==> !Opening(actions[i])
    else exists i: nat :: LastOpeningAt(actions, i) && StatusOf(actions[i]) == c.status
  }

  ghost predicate NotifyFits(actions: seq<Action>, c: Client) {
    if c.notified == None then forall i :: 0 <= i < |actions| ==> !Notifies(actions[i])
    else exists i: nat :: LastNotifyAt(actions, i) && NotifyOf(actions[i]) == c.notified.value
  }

  ghost predicate Consistent(actions: seq<Action>, c: Client) {
    && StatusFits(actions, c)
    && NotifyFits(actions, c)
    && SettingsFit(actions, c)
    && AskedFits(actions, c)
    && (forall id: nat :: id in c.submitted <==> KnownSubmit(actions, id))
    && (forall name :: name in c.authorized <==> WasAuthorized(actions, name))
  }

  // What one step can change.

  lemma StatusStep(c: Client, a: Action)
    ensures Step(c, a).0.status == if Opening(a) then StatusOf(a) else c.status
    ensures Step(c, a).0.notified == if Notifies(a) then Some(NotifyOf(a)) else c.notified
  {
    hide ReadMethod;
  }

  lemma SettingsStep(c: Client, a: Action)
    ensures Step(c, a).0.mask == if SetsMask(a).Some? then SetsMask(a).value else c.mask
    ensures Step(c, a).0.minBit == if SetsMinBit(a).Some? then SetsMinBit(a).value else c.minBit
    ensures (Step(c, a).0.extranonce1, Step(c, a).0.extranonce2Size) ==
            if SetsExtranonce(a).Some? then SetsExtranonce(a).value else (c.extranonce1, c.extranonce2Size)
  {
    hide ReadMethod;
  }

  lemma RecordsStep(c: Client, a: Action)
    ensures Step(c, a).0.asked == if a.AskAuthorize? && Step(c, a).1.Sends? then c.asked[a.id := a.name] else c.asked
    ensures Step(c, a).0.submitted == if a.AskSubmit? && Step(c, a).1.Sends? then c.submitted + {a.id} else c.submitted
  {
    hide ReadMethod;
  }

  ghost predicate NewlyAuthorized(c: Client, a: Action, name: string) {
    exists id: nat :: Confirms(a, id) && id in c.asked && c.asked[id] == name && id !in c.submitted
  }

  lemma AuthorizedStep(c: Client, a: Action, name: string)
    ensures name in Step(c, a).0.authorized <==> name in c.authorized || NewlyAuthorized(c, a, name)
  {
    hide ReadMethod;
    if a.Receive? {
      ReadNeverImpossible(a.message);
      if a.message.OkResponse? && a.message.result == Bool(true) {
        ReadTrue(a.message.id);
        assert Confirms(a, a.message.id);
      }
    }
  }

  lemma ReadTrue(id: nat)
    ensures ReadMethod(OkResponse(id, Bool(true))) == Reads(Answer(GeneralResponse(id, true)))
  {
  }

  // How the past grows.

  lemma OutcomeKept(actions: seq<Action>, a: Action, i: nat)
    requires i < |actions|
    ensures OutcomeAt(actions + [a], i) == OutcomeAt(actions, i)
  {
    assert (actions + [a])[..i] == actions[..i];
  }

  lemma OutcomeNow(actions: seq<Action>, a: Action)
    ensures OutcomeAt(actions + [a], |actions|) == Step(After(actions), a).1
  {
    assert (actions + [a])[..|actions|] == actions;
  }

  lemma AsksGrow(actions: seq<Action>, a: Action, i: nat, id: nat)
    ensures AsksAt(actions + [a], i, id) <==>
            if i == |actions| then a.AskAuthorize? && a.id == id && Step(After(actions), a).1.Sends?
            else AsksAt(actions, i, id)
  {
    hide OutcomeAt, Step;
    if i < |actions| { OutcomeKept(actions, a, i); } else { OutcomeNow(actions, a); }
  }

  lemma LastAskGrows(actions: seq<Action>, a: Action, i: nat, id: nat)
    ensures var now := a.AskAuthorize? && a.id == id && Step(After(actions), a).1.Sends?;
            LastAskAt(actions + [a], i, id) <==> if i == |actions| then now else LastAskAt(actions, i, id) && !now
  {
    hide AsksAt, Step;
    var all := actions + [a];
    AsksGrow(actions, a, i, id);
    AsksGrow(actions, a, |actions|, id);
    forall j: nat ensures AsksAt(all, j, id) <==>
           if j == |actions| then AsksAt(all, |actions|, id) else AsksAt(actions, j, id) {
      AsksGrow(actions, a, j, id);
    }
    assert AsksAt(actions, i, id) ==> i < |actions| by { AsksInside(actions, i, id); }
  }

  lemma AsksInside(actions: seq<Action>, i: nat, id: nat)
    ensures AsksAt(actions, i, id) ==> i < |actions|
  {
  }

  lemma SubmitsGrow(actions: seq<Action>, a: Action, id: nat)
    ensures KnownSubmit(actions + [a], id) <==>
            KnownSubmit(actions, id) || (a.AskSubmit? && a.id == id && Step(After(actions), a).1.Sends?)
  {
    hide OutcomeAt, Step;
    var all := actions + [a];
    OutcomeNow(actions, a);
    forall i: nat ensures SubmitsAt(all, i, id) <==>
        if i == |actions| then a.AskSubmit? && a.id == id && Step(After(actions), a).1.Sends?
        else SubmitsAt(actions, i, id) {
      if i < |actions| { OutcomeKept(actions, a, i); }
    }
    assert SubmitsAt(all, |actions|, id) ==> KnownSubmit(all, id);
    if KnownSubmit(actions, id) {
      var i: nat :| SubmitsAt(actions, i, id);
      assert SubmitsAt(all, i, id);
    }
  }

  lemma AuthorizedGrows(actions: seq<Action>, a: Action, name: string)
    ensures WasAuthorized(actions + [a], name) <==> WasAuthorized(actions, name) || Authorizes(actions, a, name)
  {
    hide Authorizes;
    var all := actions + [a];
    assert all[..|actions|] == actions && all[|actions|] == a;
    forall k: nat | k < |actions| ensures all[..k] == actions[..k] && all[k] == actions[k] {}
  }

  lemma AskedGrows(actions: seq<Action>, c: Client, a: Action)
    requires AskedFits(actions, c) && c == After(actions)
    ensures AskedFits(actions + [a], Step(c, a).0)
  {
    hide Step, LastAskAt, After;
    var all, c' := actions + [a], Step(c, a).0;
    RecordsStep(c, a);
    forall id: nat, i: nat | LastAskAt(all, i, id) ensures id in c'.asked && c'.asked[id] == NameAt(all, i) {
      LastAskGrows(actions, a, i, id);
      LastInside(actions, i, id);
    }
    forall id: nat | id in c'.asked ensures exists i: nat :: LastAskAt(all, i, id) {
      LastAskGrows(actions, a, |actions|, id);
      if !LastAskAt(all, |actions|, id) {
        var i: nat :| LastAskAt(actions, i, id);
        LastInside(actions, i, id);
        LastAskGrows(actions, a, i, id);
      }
    }
  }

  lemma LastInside(actions: seq<Action>, i: nat, id: nat)
    ensures LastAskAt(actions, i, id) ==> i < |actions|
  {
  }

  lemma AuthorizedFits(actions: seq<Action>, c: Client, a: Action, name: string)
    requires AskedFits(actions, c) && forall id: nat :: id in c.submitted <==> KnownSubmit(actions, id)
    ensures NewlyAuthorized(c, a, name) <==> Authorizes(actions, a, name)
  {
    hide LastAskAt, KnownSubmit;
    if NewlyAuthorized(c, a, name) {
      var id: nat :| Confirms(a, id) && id in c.asked && c.asked[id] == name && id !in c.submitted;
      var i: nat :| LastAskAt(actions, i, id);
      LastInside(actions, i, id);
      assert Confirms(a, id) && LastAskAt(actions, i, id) && NameAt(actions, i) == name && !KnownSubmit(actions, id);
    }
  }

  lemma StatusGrows(actions: seq<Action>, c: Client, a: Action)
    requires StatusFits(actions, c)
    ensures StatusFits(actions + [a], Step(c, a).0)
  {
    hide Step, Opening, Notifies, StatusOf, NotifyOf;
    var all := actions + [a];
    StatusStep(c, a);
    assert all[|actions|] == a;
    if Opening(a) {
      assert LastOpeningAt(all, |actions|);
    } else if c.status != Init {
      var i: nat :| LastOpeningAt(actions, i) && StatusOf(actions[i]) == c.status;
      assert all[i] == actions[i] && LastOpeningAt(all, i);
    }
  }

  lemma NotifyGrows(actions: seq<Action>, c: Client, a: Action)
    requires NotifyFits(actions, c)
    ensures NotifyFits(actions + [a], Step(c, a).0)
  {
    hide Step, Opening, Notifies, StatusOf, NotifyOf;
    var all := actions + [a];
    StatusStep(c, a);
    assert all[|actions|] == a;
    if Notifies(a) {
      assert LastNotifyAt(all, |actions|);
    } else if c.notified.Some? {
      var i: nat :| LastNotifyAt(actions, i) && NotifyOf(actions[i]) == c.notified.value;
      assert all[i] == actions[i] && LastNotifyAt(all, i);
    }
  }

  lemma SettingsGrow(actions: seq<Action>, c: Client, a: Action)
    requires SettingsFit(actions, c)
    ensures SettingsFit(actions + [a], Step(c, a).0)
  {
    hide Step, SetsMask, SetsMinBit, SetsExtranonce, Latest;
    var all := actions + [a];
    SettingsStep(c, a);
    assert Masks(all) == Masks(actions) + [SetsMask(a)];
    assert MinBits(all) == MinBits(actions) + [SetsMinBit(a)];
    assert Extranonces(all) == Extranonces(actions) + [SetsExtranonce(a)];
    LatestStep<Option<Word>>(Masks(actions), None, c.mask, SetsMask(a));
    LatestStep<Option<Word>>(MinBits(actions), None, c.minBit, SetsMinBit(a));
    LatestStep<(bytes, nat)>(Extranonces(actions), ([], 0), (c.extranonce1, c.extranonce2Size), SetsExtranonce(a));
  }

  // What the state says of the past, without naming the latest step.
  lemma Fits(actions: seq<Action>, c: Client)
    requires StatusFits(actions, c) && NotifyFits(actions, c)
    ensures c.status != Init <==> exists i :: 0 <= i < |actions| && Opening(actions[i])
    ensures c.notified.Some? <==> exists i :: 0 <= i < |actions| && Notifies(actions[i])
  {
    hide Opening, Notifies, StatusOf, NotifyOf;
  }

  lemma ConsistentStep(actions: seq<Action>, c: Client, a: Action)
    requires Consistent(actions, c) && c == After(actions)
    ensures Consistent(actions + [a], Step(c, a).0)
  {
    hide Step, StatusFits, NotifyFits, SettingsFit, After, AskedFits, KnownSubmit, WasAuthorized, Authorizes,
         NewlyAuthorized;
    var all, c' := actions + [a], Step(c, a).0;
    StatusGrows(actions, c, a);
    NotifyGrows(actions, c, a);
    SettingsGrow(actions, c, a);
    AskedGrows(actions, c, a);
    RecordsStep(c, a);
    forall id: nat ensures id in c'.submitted <==> KnownSubmit(all, id) {
      SubmitsGrow(actions, a, id);
    }
    forall name ensures name in c'.authorized <==> WasAuthorized(all, name) {
      AuthorizedStep(c, a, name);
      AuthorizedFits(actions, c, a, name);
      AuthorizedGrows(actions, a, name);
    }
  }

  // Every reachable client fits its past.
  lemma {:induction false} RunConsistent(actions: seq<Action>)
    ensures Consistent(actions, After(actions))
  {
    hide Step, Consistent;
    if actions == [] {
      NothingYet();
    } else {
      var before, a := actions[..|actions| - 1], actions[|actions| - 1];
      RunConsistent(before);
      ConsistentStep(before, After(before), a);
      assert actions == before + [a];
    }
  }

  lemma NothingYet()
    ensures Consistent([], START)
  {
    hide Latest;
    LatestEmpty<Option<Word>>(None);
    LatestEmpty<(bytes, nat)>(([], 0));
    assert Masks([]) == [] && MinBits([]) == [] && Extranonces([]) == [];
  }

  // Safety of every run, step by step.

  // Neither impossible state is ever reached.
  lemma NeverImpossible(c: Client, a: Action)
    ensures Step(c, a).1 != ImpossibleState
  {
    hide ReadMethod;
    if a.Receive? { ReadNeverImpossible(a.message); }
  }

  // Nothing but configure goes out before an accepted configure or subscribe response, and subscribe
  // and authorize go out exactly after one.
  lemma SendsOnlyWhenOpen(actions: seq<Action>, i: nat)
    requires i < |actions|
    ensures OutcomeAt(actions, i) != ImpossibleState
    ensures OutcomeAt(actions, i).Sends? && !actions[i].AskConfigure? ==>
              exists j :: 0 <= j <= i && Opening(actions[j])
    ensures actions[i].AskAuthorize? || actions[i].AskSubscribe? ==>
              (OutcomeAt(actions, i).Sends? <==> exists j :: 0 <= j < i && Opening(actions[j]))
  {
    hide Opening, Notifies, StatusFits, NotifyFits, SettingsFit, WasAuthorized, AskedFits, KnownSubmit;
    RunConsistent(actions[..i]);
    Fits(actions[..i], After(actions[..i]));
    NeverImpossible(After(actions[..i]), actions[i]);
    SendsOpened(After(actions[..i]), actions[i]);
    assert forall j :: 0 <= j < i ==> actions[..i][j] == actions[j];
  }

  lemma SendsOpened(c: Client, a: Action)
    ensures Step(c, a).1.Sends? && !a.AskConfigure? ==> c.status != Init || Opening(a)
    ensures a.AskAuthorize? || a.AskSubscribe? ==> (Step(c, a).1.Sends? <==> c.status != Init)
  {
    hide ReadMethod;
  }

  ghost predicate Opened(past: seq<Action>) {
    exists j :: 0 <= j < |past| && Opening(past[j])
  }

  // A submit goes out exactly after such a response and a notify, for a name that was authorized.
  ghost predicate MaySubmit(past: seq<Action>, name: string) {
    && Opened(past)
    && (exists j :: 0 <= j < |past| && Notifies(past[j]))
    && WasAuthorized(past, name)
  }

  // The share of a submit, for the job of the latest notify: its parameters are in their places, and
  // the server reads it as that share.
  ghost predicate SubmitsLatest(past: seq<Action>, a: Action, o: Outcome)
    requires a.AskSubmit? && o.Sends?
  {
    exists j: nat :: LastNotifyAt(past, j) && SubmitsFor(a, NotifyOf(past[j]).jobId, o.message)
  }

  ghost predicate SubmitsFor(a: Action, jobId: string, m: Message)
    requires a.AskSubmit?
  {
    var share := Submit(a.userName, jobId, a.extraNonce2, a.time, a.nonce, a.versionBits, a.id);
    && Requests(m, a.id, "mining.submit") && SubmitParams(m.params.items, share)
    && (|a.extraNonce2| <= 32 ==> ReadMethod(m) == Reads(ForServer(SubmitRequest(share))))
  }

  lemma SubmitSent(a: Action, jobId: string)
    requires a.AskSubmit?
    ensures SubmitsFor(a, jobId, SubmitMessage(a, jobId))
  {
    hide ReadMethod, PrintSubmit, SubmitParams;
    var share := Submit(a.userName, jobId, a.extraNonce2, a.time, a.nonce, a.versionBits, a.id);
    SubmitPrinted(share);
    if |a.extraNonce2| <= 32 {
      RequestsRead(Authorize(0, "", ""), share, Subscribe(0, "", None), Configure([], 0));
    }
  }

  lemma SubmitsExactly(actions: seq<Action>, i: nat)
    requires i < |actions| && actions[i].AskSubmit?
    ensures OutcomeAt(actions, i).Sends? <==> MaySubmit(actions[..i], actions[i].userName)
    ensures !OutcomeAt(actions, i).Sends? ==> OutcomeAt(actions, i) == Fails
    ensures OutcomeAt(actions, i).Sends? ==> SubmitsLatest(actions[..i], actions[i], OutcomeAt(actions, i))
  {
    hide Opening, Notifies, StatusOf, NotifyOf, StatusFits, SettingsFit, WasAuthorized, AskedFits, KnownSubmit,
         ReadMethod, SubmitsFor, SubmitMessage;
    var past := actions[..i];
    RunConsistent(past);
    Fits(past, After(past));
    if After(past).notified.Some? { SubmitSent(actions[i], After(past).notified.value.jobId); }
  }

  // A subscription, as the server reads it.
  ghost predicate SubscribesAs(s: Subscribe, m: Message) {
    && Requests(m, s.id, "mining.subscribe") && SubscribeParams(m.params.items, s)
    && ((s.extranonce1.Some? ==> |s.extranonce1.value| <= 32) ==>
        ReadMethod(m) == Reads(ForServer(SubscribeRequest(s))))
  }

  lemma SubscribeSent(s: Subscribe)
    ensures SubscribesAs(s, PrintSubscribe(s))
  {
    hide ReadMethod, PrintSubscribe, SubscribeParams;
    SubscribePrinted(s);
    if s.extranonce1.Some? ==> |s.extranonce1.value| <= 32 {
      RequestsRead(Authorize(0, "", ""), Submit("", "", [], 0, 0, None, 0), s, Configure([], 0));
    }
  }

  // In no run is there a bit count without a mask.
  lemma {:induction false} CountNeedsMask(actions: seq<Action>)
    ensures After(actions).mask == None ==> After(actions).minBit == None
  {
    hide Step;
    if actions != [] {
      var before, a := actions[..|actions| - 1], actions[|actions| - 1];
      CountNeedsMask(before);
      CountStep(After(before), a);
    }
  }

  lemma CountStep(c: Client, a: Action)
    requires c.mask == None ==> c.minBit == None
    ensures Step(c, a).0.mask == None ==> Step(c, a).0.minBit == None
  {
    hide ReadMethod;
  }

  // So a configure request, with the mask and the bit count stored last, is always read as that request.
  ghost predicate ConfiguresAs(past: seq<Action>, id: nat, m: Message) {
    exists mask, min ::
      && Latest<Option<Word>>(Masks(past), None, mask) && Latest<Option<Word>>(MinBits(past), None, min)
      && Requests(m, id, "mining.configure") && ConfigureParams(m.params.items, mask, min)
      && ReadMethod(m) == Reads(ForServer(ConfigureRequest(
           Configure(if mask == None then [] else [VersionRolling(mask, min)], id))))
  }

  lemma ConfigureSent(c: Client, id: nat)
    requires c.mask == None ==> c.minBit == None
    ensures var m := ConfigureMessage(c, id);
            && Requests(m, id, "mining.configure") && ConfigureParams(m.params.items, c.mask, c.minBit)
            && ReadMethod(m) == Reads(ForServer(ConfigureRequest(
                 Configure(if c.mask == None then [] else [VersionRolling(c.mask, c.minBit)], id))))
  {
    hide ReadMethod, PrintConfigure, ConfigureParams, Canonical;
    ConfigurePrinted(id, c.mask, c.minBit);
    MaskedIsCanonical(if c.mask.Some? then c.mask.value else 0, c.minBit);
    RequestsRead(Authorize(0, "", ""), Submit("", "", [], 0, 0, None, 0), Subscribe(0, "", None),
                 Configure(if c.mask == None then [] else [VersionRolling(c.mask, c.minBit)], id));
  }

  // What every step comes to, in terms of the past: which requests go out and what the server will read
  // them as, and what each message received leads to.
  ghost predicate ReceiveFits(past: seq<Action>, m: Message, accepted: bool, o: Outcome) {
    match ReadMethod(m)
    case Reads(Answer(ConfigureResponse(c))) =>
      if accepted then o.Sends? && SubscribesAs(Subscribe(c.id, SIGNATURE, Some([8, 0, 0, 2])), o.message)
      else o == Fails
    case Reads(Answer(GeneralResponse(id, _))) => o == if KnownSubmit(past, id) then Fails else Silent
    case Reads(ForServer(_)) => o == Fails
    case Reads(_) => o == if accepted then Silent else Fails
    case ReaderPanics => o == ReaderPanicked
    case _ => o == Fails
  }

  ghost predicate OutcomeFits(past: seq<Action>, a: Action, o: Outcome) {
    match a
    case Receive(m, accepted) => ReceiveFits(past, m, accepted, o)
    case AskConfigure(id) => o.Sends? && ConfiguresAs(past, id, o.message)
    case AskSubscribe(id, extranonce1) =>
      if Opened(past) then o.Sends? && SubscribesAs(Subscribe(id, SIGNATURE, extranonce1), o.message) else o == Fails
    case AskAuthorize(id, name, password) =>
      if Opened(past)
      then o.Sends? && ReadMethod(o.message) == Reads(ForServer(AuthorizeRequest(Authorize(id, name, password))))
      else o == Fails
    case AskSubmit(_, userName, _, _, _, _) =>
      if MaySubmit(past, userName) then o.Sends? && SubmitsLatest(past, a, o) else o == Fails
  }

  lemma EveryOutcomeFits(actions: seq<Action>, i: nat)
    requires i < |actions|
    ensures OutcomeFits(actions[..i], actions[i], OutcomeAt(actions, i))
  {
    hide ReadMethod, Opening, Notifies, StatusFits, NotifyFits, WasAuthorized, AskedFits, KnownSubmit, Latest,
         MaySubmit, SubmitsLatest, SubscribesAs, ConfigureMessage, PrintSubscribe, PrintAuthorize, ReceiveFits,
         HandleMessage, SubmitStep;
    var past := actions[..i];
    var c := After(past);
    RunConsistent(past);
    Fits(past, c);
    match actions[i]
    case Receive(m, accepted) => ReceiveOutcome(past, c, m, accepted);
    case AskConfigure(id) =>
      CountNeedsMask(past);
      ConfigureSent(c, id);
    case AskSubscribe(id, extranonce1) => SubscribeSent(Subscribe(id, SIGNATURE, extranonce1));
    case AskAuthorize(id, name, password) =>
      RequestsRead(Authorize(id, name, password), Submit("", "", [], 0, 0, None, 0), Subscribe(0, "", None),
                   Configure([], 0));
    case AskSubmit(_, _, _, _, _, _) => SubmitsExactly(actions, i);
  }

  lemma ReceiveOutcome(past: seq<Action>, c: Client, m: Message, accepted: bool)
    requires forall id: nat :: id in c.submitted <==> KnownSubmit(past, id)
    ensures ReceiveFits(past, m, accepted, HandleMessage(c, m, accepted).1)
  {
    hide ReadMethod, KnownSubmit, SubscribesAs, PrintSubscribe;
    ReadNeverImpossible(m);
    match ReadMethod(m)
    case Reads(Answer(ConfigureResponse(r))) => SubscribeSent(Subscribe(r.id, SIGNATURE, Some([8, 0, 0, 2])));
    case _ =>
  }

  // A submit message leaves the client in no other way.
  lemma OnlySubmitSubmits(c: Client, a: Action)
    requires Step(c, a).1.Sends? && Step(c, a).1.message.name == "mining.submit"
    ensures a.AskSubmit?
  {
    hide ReadMethod;
    Names();
  }

  // A configure response is not needed: an unasked-for answer to mining.subscribe opens the client.
  lemma SubscribeAnswerOpens(s: Subscribed, id: nat, name: string, password: string)
    requires |s.extraNonce1| <= 32
    ensures var actions := [Receive(PrintSubscribed(s), true), AskAuthorize(id, name, password)];
            && OutcomeAt(actions, 1).Sends?
            && forall j :: 0 <= j < 2 ==>
                 !(actions[j].Receive? && ReadMethod(actions[j].message).Reads? &&
                   ReadMethod(actions[j].message).method_.Answer?
                   && ReadMethod(actions[j].message).method_.response.ConfigureResponse?)
  {
    hide ReadMethod, PrintSubscribed, PrintAuthorize;
    AnswersRead(s, Configured(0, None, None), 0, true);
    var actions := [Receive(PrintSubscribed(s), true), AskAuthorize(id, name, password)];
    assert actions[..1] == [actions[0]];
    assert [actions[0]][..0] == [];
    assert After(actions[..1]) == Step(START, actions[0]).0;
  }

  // The client object: its setters change one field each, its records are kept by the senders.
  class ClientConnection {
    var status: Status
    var mask: Option<Word>
    var minBit: Option<Word>
    var extranonce1: bytes
    var extranonce2Size: nat
    var authorized: set<string>
    var asked: map<nat, string>
    var submitted: set<nat>
    var notified: Option<Notify>

    ghost function Value(): Client
      reads this
    {
      Client(status, mask, minBit, extranonce1, extranonce2Size, authorized, asked, submitted, notified)
    }

    constructor ()
      ensures Value() == START
    {
      status, mask, minBit, extranonce1, extranonce2Size := Init, None, None, [], 0;
      authorized, asked, submitted, notified := {}, map[], {}, None;
    }

    method Update(r: Response) returns (updated: Option<Response>)
      ensures updated == UpdateResponse(Value(), r)
    {
      if !r.GeneralResponse? {
        return Some(r);
      }
      var isAuthorize := if r.id in asked then Some(asked[r.id]) else None;
      var isSubmit := r.id in submitted;
      match (isAuthorize, isSubmit) {
        case (Some(prevName), false) => updated := Some(AuthorizeResponse(prevName, r.flag));
        case (None, false) => updated := Some(SubmitResponse);
        case _ => updated := None;
      }
    }

    method Respond(r: Response, accepted: bool) returns (o: Outcome)
      modifies this
      ensures (Value(), o) == HandleResponse(old(Value()), r, accepted)
    {
      match r {
        case ConfigureResponse(configured) =>
          if !accepted {
            return Fails;
          }
          mask := configured.Mask();
          minBit := configured.MinBit();
          status := IsConfigured;
          o := Subscribe(configured.id, Some(FIRST_EXTRANONCE));
        case SubscribeResponse(s) =>
          if !accepted {
            return Fails;
          }
          extranonce1 := s.extraNonce1;
          extranonce2Size := s.extraNonce2Size;
          status := IsSubscribed;
          o := Silent;
        case AuthorizeResponse(name, ok) =>
          if ok {
            authorized := authorized + {name};
          }
          o := Silent;
        case SubmitResponse => o := Silent;
        case GeneralResponse(_, _) => o := ImpossibleState;
      }
    }

    method Notice(n: Notice, accepted: bool) returns (o: Outcome)
      modifies this
      ensures (Value(), o) == HandleNotice(old(Value()), n, accepted)
    {
      if !accepted {
        return Fails;
      }
      match n {
        case NotifyNotice(notify) => notified := Some(notify);
        case ExtranonceNotice(e) => extranonce1, extranonce2Size := e.extraNonce1, e.extraNonce2Size;
        case MaskNotice(m) => mask := Some(m);
        case DifficultyNotice =>
      }
      o := Silent;
    }

    method Message(m: Sv1Requests.Message, accepted: bool) returns (o: Outcome)
      modifies this
      ensures (Value(), o) == Step(old(Value()), Receive(m, accepted)) && o != ImpossibleState
    {
      hide ReadMethod;
      NeverImpossible(Value(), Receive(m, accepted));
      match ReadMethod(m) {
        case Reads(Answer(response)) =>
          var r := Update(response);
          if r == None {
            return Fails;
          }
          o := Respond(r.value, accepted);
        case Reads(ForClient(notice)) => o := Notice(notice, accepted);
        case Reads(ForServer(_)) => o := Fails;
        case Reads(ErrorMessage) => o := if accepted then Silent else Fails;
        case Unknown => o := Fails;
        case BadParams => o := Fails;
        case ReaderPanics => o := ReaderPanicked;
        case ReaderImpossible => o := ImpossibleState;
      }
    }

    method Configure(id: nat) returns (o: Outcome)
      ensures (Value(), o) == Step(Value(), AskConfigure(id))
    {
      o := Sends(PrintConfigure(Sv1Requests.Configure(if mask == None && minBit == None then []
                                                      else [VersionRolling(mask, minBit)], id)));
    }

    method Subscribe(id: nat, extra: Option<bytes>) returns (o: Outcome)
      ensures (Value(), o) == Step(Value(), AskSubscribe(id, extra))
    {
      match status {
        case Init => o := Fails;
        case _ => o := Sends(SubscribeMessage(id, extra));
      }
    }

    method Authorize(id: nat, name: string, password: string) returns (o: Outcome)
      modifies this
      ensures (Value(), o) == Step(old(Value()), AskAuthorize(id, name, password))
    {
      match status {
        case Init => o := Fails;
        case _ =>
          asked := asked[id := name];
          o := Sends(PrintAuthorize(Sv1Requests.Authorize(id, name, password)));
      }
    }

    method Submit(id: nat, userName: string, extraNonce2: bytes, time: Word, nonce: Word, versionBits: Option<Word>)
      returns (o: Outcome)
      modifies this
      ensures (Value(), o) == Step(old(Value()), AskSubmit(id, userName, extraNonce2, time, nonce, versionBits))
    {
      match status {
        case Init => o := Fails;
        case _ =>
          if notified == None || userName !in authorized {
            return Fails;
          }
          submitted := submitted + {id};
          o := Sends(PrintSubmit(
            Sv1Requests.Submit(userName, notified.value.jobId, extraNonce2, time, nonce, versionBits, id)));
      }
    }

    method Perform(a: Action) returns (o: Outcome)
      modifies this
      ensures (Value(), o) == Step(old(Value()), a)
    {
      match a {
        case Receive(m, accepted) => o := Message(m, accepted);
        case AskConfigure(id) => o := Configure(id);
        case AskSubscribe(id, extra) => o := Subscribe(id, extra);
        case AskAuthorize(id, name, password) => o := Authorize(id, name, password);
        case AskSubmit(id, name, extra, time, nonce, bits) => o := Submit(id, name, extra, time, nonce, bits);
      }
    }

    // The object goes through every run as the step function does.
    method Replay(actions: seq<Action>) returns (outcomes: seq<Outcome>)
      requires Value() == START
      modifies this
      ensures Value() == After(actions) && |outcomes| == |actions|
      ensures forall i :: 0 <= i < |actions| ==> outcomes[i] == OutcomeAt(actions, i) && outcomes[i] != ImpossibleState
      ensures forall i :: 0 <= i < |actions| ==> OutcomeFits(actions[..i], actions[i], outcomes[i])
    {
      hide Step, OutcomeFits;
      outcomes := [];
      for i := 0 to |actions|
        invariant Value() == After(actions[..i]) && |outcomes| == i
        invariant forall k :: 0 <= k < i ==> outcomes[k] == OutcomeAt(actions, k) && outcomes[k] != ImpossibleState
      {
        NeverImpossible(Value(), actions[i]);
        var o := Perform(actions[i]);
        assert actions[..i + 1][..i] == actions[..i];
        outcomes := outcomes + [o];
      }
      assert actions[..|actions|] == actions;
      forall i | 0 <= i < |actions| ensures OutcomeFits(actions[..i], actions[i], outcomes[i]) {
        EveryOutcomeFits(actions, i);
      }
    }
  }
}
