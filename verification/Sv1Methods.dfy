/** Which Stratum V1 method a JSON-RPC message is. */
module Sv1Methods {
  import opened Bytes
  import opened Hex
  import opened Sv1Requests
  import opened Sv1Responses

  datatype ClientRequest =
    | SuggestDifficulty
    | SubscribeRequest(subscribe: Subscribe)
    | AuthorizeRequest(authorize: Authorize)
    | ExtranonceSubscribe
    | SubmitRequest(submit: Submit)
    | ConfigureRequest(configure: Configure)

  datatype Notice =
    | NotifyNotice(notify: Notify)
    | DifficultyNotice
    | ExtranonceNotice(extranonce: SetExtranonce)
    | MaskNotice(mask: Word)

  datatype Method =
    | ForServer(request: ClientRequest)
    | ForClient(notice: Notice)
    | Answer(response: Response)
    | ErrorMessage

  // Unknown names and bad parameters are errors; the last two are panics.
  datatype Reading = Reads(method_: Method) | Unknown | BadParams | ReaderPanics | ReaderImpossible

  function ReadRequest(id: nat, name: string, params: Json): Reading {
    if name == "mining.suggest_difficulty" then Reads(ForServer(SuggestDifficulty))
    else if name == "mining.subscribe" then
      match ParseSubscribe(id, params)
      case Ok(v) => Reads(ForServer(SubscribeRequest(v)))
      case Malformed => BadParams
      case Panics => ReaderPanics
    else if name == "mining.authorize" then
      match ParseAuthorize(id, params)
      case Ok(v) => Reads(ForServer(AuthorizeRequest(v)))
      case Malformed => BadParams
      case Panics => ReaderPanics
    else if name == "mining.extranonce.subscribe" then Reads(ForServer(ExtranonceSubscribe))
    else if name == "mining.submit" then
      match ParseSubmit(id, params)
      case Ok(v) => Reads(ForServer(SubmitRequest(v)))
      case Malformed => BadParams
      case Panics => ReaderPanics
    else if name == "mining.configure" then
      match ParseConfigure(id, params)
      case Ok(v) => Reads(ForServer(ConfigureRequest(v)))
      case Malformed => BadParams
      case Panics => ReaderPanics
    else Unknown
  }

  function ReadNotice(name: string, params: Json): Reading {
    if name == "mining.notify" then
      match ParseNotify(params)
      case Ok(v) => Reads(ForClient(NotifyNotice(v)))
      case Malformed => BadParams
      case Panics => ReaderPanics
    else if name == "mining.set_version_mask" then
      match ParseSetVersionMask(params)
      case Ok(v) => Reads(ForClient(MaskNotice(v)))
      case Malformed => BadParams
      case Panics => ReaderPanics
    else if name == "mining.set_difficulty" then
      if params.Array? && |params.items| == 1 && Numeric(params.items[0]) then Reads(ForClient(DifficultyNotice))
      else BadParams
    else if name == "mining.set_extranonce" then
      match ParseSetExtranonce(params)
      case Ok(v) => Reads(ForClient(ExtranonceNotice(v)))
      case Malformed => BadParams
      case Panics => ReaderPanics
    else Unknown
  }

  // `TryFrom<Message> for Method`
  function ReadMethod(m: Message): Reading {
    match m
    case Request(id, name, params) => ReadRequest(id, name, params)
    case Notification(name, params) => ReadNotice(name, params)
    case OkResponse(id, result) =>
      (match Classify(id, result)
       case Is(r) => Reads(Answer(r))
       case Unreadable => BadParams
       case ParserPanics => ReaderPanics
       case Impossible => ReaderImpossible)
    case ErrorResponse(_, _) => Reads(ErrorMessage)
  }

  lemma Names()
    ensures "mining.subscribe" != "mining.suggest_difficulty" && "mining.submit" != "mining.subscribe"
    ensures "mining.authorize" !in {"mining.suggest_difficulty", "mining.subscribe"}
    ensures "mining.submit" !in {"mining.suggest_difficulty", "mining.authorize", "mining.extranonce.subscribe"}
    ensures "mining.configure" !in
              {"mining.suggest_difficulty", "mining.subscribe", "mining.authorize", "mining.extranonce.subscribe",
               "mining.submit"}
  {
    assert |"mining.suggest_difficulty"| == 25 && |"mining.subscribe"| == 16 && |"mining.authorize"| == 16;
    assert "mining.subscribe"[7] == 's' && "mining.authorize"[7] == 'a' && "mining.configure"[7] == 'c';
    assert |"mining.extranonce.subscribe"| == 27 && |"mining.submit"| == 13 && |"mining.configure"| == 16;
  }

  lemma NoticeNames()
    ensures "mining.set_extranonce" !in {"mining.notify", "mining.set_version_mask", "mining.set_difficulty"}
    ensures "mining.set_version" !in {"mining.notify", "mining.set_version_mask", "mining.set_difficulty",
                                      "mining.set_extranonce"}
  {
    assert |"mining.notify"| == 13 && |"mining.set_version_mask"| == 23 && |"mining.set_difficulty"| == 21;
    assert |"mining.set_extranonce"| == 21 && |"mining.set_version"| == 18;
    assert "mining.set_extranonce"[11] == 'e' && "mining.set_difficulty"[11] == 'd';
  }

  // The methods by name: any other is unknown, and three of them take no reading of parameters.
  lemma KnownNames(id: nat, name: string, params: Json)
    ensures ReadRequest(id, name, params) == Unknown <==>
            name !in {"mining.suggest_difficulty", "mining.subscribe", "mining.authorize",
                      "mining.extranonce.subscribe", "mining.submit", "mining.configure"}
    ensures ReadRequest(id, "mining.suggest_difficulty", params) == Reads(ForServer(SuggestDifficulty))
    ensures ReadRequest(id, "mining.extranonce.subscribe", params) == Reads(ForServer(ExtranonceSubscribe))
    ensures ReadNotice(name, params) == Unknown <==>
            name !in {"mining.notify", "mining.set_version_mask", "mining.set_difficulty", "mining.set_extranonce"}
    ensures ReadNotice("mining.set_difficulty", params) ==
            if params.Array? && |params.items| == 1 && (params.items[0].Number? || params.items[0].Fraction?)
            then Reads(ForClient(DifficultyNotice)) else BadParams
  {
    hide ParseSubscribe, ParseAuthorize, ParseSubmit, ParseConfigure, ParseNotify, ParseSetVersionMask,
         ParseSetExtranonce;
    Names();
    NoticeNames();
    ExtranonceName();
  }

  lemma ExtranonceName()
    ensures "mining.extranonce.subscribe" !in {"mining.suggest_difficulty", "mining.subscribe", "mining.authorize"}
    ensures "mining.set_difficulty" !in {"mining.notify", "mining.set_version_mask"}
  {
    assert |"mining.suggest_difficulty"| == 25 && |"mining.subscribe"| == 16 && |"mining.authorize"| == 16;
    assert |"mining.extranonce.subscribe"| == 27 && |"mining.set_difficulty"| == 21;
    assert |"mining.notify"| == 13 && |"mining.set_version_mask"| == 23;
  }

  // A version mask is read under its own name.
  lemma MaskRead(mask: Word)
    ensures ReadMethod(Notification("mining.set_version_mask", Array([Text(PrintU32(mask))]))) ==
            Reads(ForClient(MaskNotice(mask)))
  {
    hide PrintU32, ParseU32;
    assert "mining.set_version_mask"[7] == 's' && "mining.notify"[7] == 'n';
    U32RoundTrip(mask);
  }

  // Every request the client prints is read by the server as that request.
  lemma RequestsRead(a: Authorize, s: Submit, u: Subscribe, c: Configure)
    requires |s.extraNonce2| <= 32 && (u.extranonce1.Some? ==> |u.extranonce1.value| <= 32)
    ensures ReadMethod(PrintAuthorize(a)) == Reads(ForServer(AuthorizeRequest(a)))
    ensures ReadMethod(PrintSubmit(s)) == Reads(ForServer(SubmitRequest(s)))
    ensures ReadMethod(PrintSubscribe(u)) == Reads(ForServer(SubscribeRequest(u)))
    ensures ReadMethod(PrintConfigure(c)) == Reads(ForServer(ConfigureRequest(c))) <==> Canonical(c.extensions)
  {
    hide ParseAuthorize, ParseSubmit, ParseSubscribe, ParseConfigure, Canonical;
    Names();
    AuthorizeRoundTrip(a);
    SubmitRoundTrip(s);
    SubscribeRoundTrip(u);
    ConfigureRoundTripExactly(c);
  }

  // An extranonce of over 32 bytes is not survived by its reader.
  lemma LongExtranoncePanics(s: Submit, u: Subscribe, e: SetExtranonce)
    requires |s.extraNonce2| > 32 && u.extranonce1.Some? && |u.extranonce1.value| > 32 && |e.extraNonce1| > 32
    ensures ReadMethod(PrintSubmit(s)) == ReaderPanics
    ensures ReadMethod(PrintSubscribe(u)) == ReaderPanics
    ensures ReadMethod(PrintSetExtranonce(e)) == ReaderPanics
  {
    hide Encode, Decode, DecodePadded, PrintU32, ParseU32;
    Names();
    NoticeNames();
    HexRoundTrip(s.extraNonce2);
    HexRoundTrip(u.extranonce1.value);
    HexRoundTrip(e.extraNonce1);
  }

  // Everything the server prints is read by the client as what it is, but for the version mask, whose
  // printed name is not one that is read.
  lemma NoticesRead(n: Notify, e: SetExtranonce, mask: Word)
    requires n.Valid() && |e.extraNonce1| <= 32
    ensures ReadMethod(PrintNotify(n)) == Reads(ForClient(NotifyNotice(n)))
    ensures ReadMethod(PrintSetExtranonce(e)) == Reads(ForClient(ExtranonceNotice(e)))
    ensures ReadMethod(PrintSetVersionMask(mask)) == Unknown
  {
    hide ParseNotify, ParseSetExtranonce;
    NoticeNames();
    NotifyRoundTrip(n);
    SetExtranonceRoundTrip(e);
  }

  lemma AnswersRead(s: Subscribed, c: Configured, id: nat, flag: bool)
    requires |s.extraNonce1| <= 32
    ensures ReadMethod(PrintSubscribed(s)) == Reads(Answer(SubscribeResponse(s)))
    ensures ReadMethod(PrintConfigured(c)) == Reads(Answer(ConfigureResponse(c)))
    ensures ReadMethod(OkResponse(id, Bool(flag))) == Reads(Answer(GeneralResponse(id, flag)))
  {
    hide Classify;
    ClassifyPrinted(s, c, id, flag);
  }

  // No message is read as two things at once, and no answer is read as one of the two kinds that
  // only the client's own records can tell.
  lemma ReadNeverImpossible(m: Message)
    ensures ReadMethod(m) != ReaderImpossible
    ensures var r := ReadMethod(m);
            r.Reads? && r.method_.Answer? ==>
              && m.OkResponse? && !r.method_.response.AuthorizeResponse? && !r.method_.response.SubmitResponse?
              && (r.method_.response.GeneralResponse? ==>
                    m.result == Bool(r.method_.response.flag) && m.id == r.method_.response.id)
  {
    hide ParseSubscribed, ParseConfigured, ReadRequest, ReadNotice;
    if m.OkResponse? {
      ClassifyExclusive(m.id, m.result);
    } else {
      RequestsAreNoAnswers(m);
    }
  }

  lemma RequestsAreNoAnswers(m: Message)
    requires !m.OkResponse?
    ensures ReadMethod(m) != ReaderImpossible
    ensures ReadMethod(m).Reads? ==> !ReadMethod(m).method_.Answer?
  {
  }
}
