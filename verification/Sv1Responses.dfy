/** Stratum V1 messages from server to client, and how a client tells responses apart. */
module Sv1Responses {
  import opened Bytes
  import opened Hex
  import opened Sv1Requests

  // mining.notify

  datatype Notify = Notify(
    jobId: string, prevHash: bytes, coinBase1: bytes, coinBase2: bytes, merkleBranch: seq<bytes>,
    version: Word, bits: Word, time: Word, cleanJobs: bool)
  {
    ghost predicate Valid() {
      |prevHash| == 32 && forall i :: 0 <= i < |merkleBranch| ==> |merkleBranch[i]| == 32
    }
  }

  function PrintNodes(nodes: seq<bytes>): seq<Json> {
    seq(|nodes|, i requires 0 <= i < |nodes| => Text(Encode(nodes[i])))
  }

  function PrintNotify(n: Notify): Message
    requires |n.prevHash| == 32
  {
    Notification("mining.notify", Array([
      Text(n.jobId), Text(PrintPrevHash(n.prevHash)), Text(Encode(n.coinBase1)), Text(Encode(n.coinBase2)),
      Array(PrintNodes(n.merkleBranch)), Text(PrintU32(n.version)), Text(PrintU32(n.bits)), Text(PrintU32(n.time)),
      Bool(n.cleanJobs)]))
  }

  function ParseNodes(items: seq<Json>): Parsed<seq<bytes>> {
    if items == [] then Ok([])
    else
      var before :- ParseNodes(items[..|items| - 1]);
      var last := items[|items| - 1];
      if !last.Text? then Malformed
      else
        var node :- ParseNode(last.s);
        Ok(before + [node])
  }

  // The loop over the branch stops at the first node that fails.
  method ParseMerkleBranch(items: seq<Json>) returns (r: Parsed<seq<bytes>>)
    ensures r == ParseNodes(items)
  {
    var nodes := [];
    for i := 0 to |items|
      invariant ParseNodes(items[..i]) == Ok(nodes)
    {
      assert items[..i + 1][..i] == items[..i];
      var node := if items[i].Text? then ParseNode(items[i].s) else Malformed;
      if node.IsFailure() {
        NodesFailFrom(items, i + 1);
        return node.PropagateFailure();
      }
      nodes := nodes + [node.value];
    }
    assert items[..|items|] == items;
    r := Ok(nodes);
  }

  lemma {:induction false} NodesFailFrom(items: seq<Json>, n: nat)
    requires n <= |items| && ParseNodes(items[..n]).IsFailure()
    ensures ParseNodes(items) == ParseNodes(items[..n])
    decreases |items|
  {
    if n == |items| {
      assert items[..n] == items;
    } else {
      assert items[..|items| - 1][..n] == items[..n];
      NodesFailFrom(items[..|items| - 1], n);
    }
  }

  predicate NotifyShape(p: seq<Json>) {
    && |p| == 9
    && p[0].Text? && p[1].Text? && p[2].Text? && p[3].Text? && p[4].Array?
    && p[5].Text? && p[6].Text? && p[7].Text? && p[8].Bool?
  }

  function ParseNotify(params: Json): Parsed<Notify> {
    if !params.Array? || !NotifyShape(params.items) then Malformed
    else
      var p := params.items;
      var prevHash :- ParsePrevHash(p[1].s);
      var coinBase1 :- FromHex(DecodePadded(p[2].s));
      var coinBase2 :- FromHex(DecodePadded(p[3].s));
      var version :- ParseU32(p[5].s);
      var bits :- ParseU32(p[6].s);
      var time :- ParseU32(p[7].s);
      var branch :- ParseNodes(p[4].items);
      Ok(Notify(p[0].s, prevHash, coinBase1, coinBase2, branch, version, bits, time, p[8].flag))
  }

  // A job's parameters, by place.
  ghost predicate NodesIn(items: seq<Json>, nodes: seq<bytes>) {
    |items| == |nodes| &&
    forall i :: 0 <= i < |items| ==> items[i].Text? && DecodePadded(items[i].s) == Some(nodes[i]) && |nodes[i]| == 32
  }

  ghost predicate NotifyParams(p: seq<Json>, n: Notify) {
    && |p| == 9
    && p[0] == Text(n.jobId)
    && p[1].Text? && ParsePrevHash(p[1].s) == Ok(n.prevHash)
    && p[2].Text? && DecodePadded(p[2].s) == Some(n.coinBase1)
    && p[3].Text? && DecodePadded(p[3].s) == Some(n.coinBase2)
    && p[4].Array? && NodesIn(p[4].items, n.merkleBranch)
    && p[5].Text? && WordIn(p[5], n.version)
    && p[6].Text? && WordIn(p[6], n.bits)
    && p[7].Text? && WordIn(p[7], n.time)
    && p[8] == Bool(n.cleanJobs)
  }

  // A node that is no hex is malformed, and one of another length is not survived.
  lemma NodeExact(s: string)
    ensures ParseNode(s) == Malformed <==> !AllDigits(s)
    ensures ParseNode(s) == Panics <==> DecodePadded(s).Some? && |DecodePadded(s).value| != 32
  {
    hide DecodePadded, AllDigits;
    DecodePaddedExact(s);
  }

  lemma {:induction false} NodesExact(items: seq<Json>, nodes: seq<bytes>)
    ensures ParseNodes(items) == Ok(nodes) <==> NodesIn(items, nodes)
  {
    hide DecodePadded;
    if items != [] {
      var front, last := items[..|items| - 1], items[|items| - 1];
      if nodes == [] {
      } else {
        NodesExact(front, nodes[..|nodes| - 1]);
        assert nodes == nodes[..|nodes| - 1] + [nodes[|nodes| - 1]];
      }
    }
  }

  lemma NotifyParamsExact(n: Notify, params: Json)
    ensures ParseNotify(params) == Ok(n) <==> params.Array? && NotifyParams(params.items, n)
    ensures n.Valid() ==> PrintNotify(n).Notification? && PrintNotify(n).name == "mining.notify"
  {
    hide DecodePadded, ParseU32, WordIn, ParsePrevHash, ParseNodes, NodesIn;
    if params.Array? && |params.items| == 9 {
      var p := params.items;
      ReadWordExact(p[5], n.version);
      ReadWordExact(p[6], n.bits);
      ReadWordExact(p[7], n.time);
      if p[4].Array? { NodesExact(p[4].items, n.merkleBranch); }
    }
  }

  lemma {:induction false} NodesRoundTrip(nodes: seq<bytes>)
    requires forall i :: 0 <= i < |nodes| ==> |nodes[i]| == 32
    ensures ParseNodes(PrintNodes(nodes)) == Ok(nodes)
  {
    hide Encode, DecodePadded;
    if nodes != [] {
      var front := nodes[..|nodes| - 1];
      NodesRoundTrip(front);
      HexRoundTrip(nodes[|nodes| - 1]);
      assert PrintNodes(nodes)[..|nodes| - 1] == PrintNodes(front);
      assert nodes == front + [nodes[|nodes| - 1]];
    }
  }

  lemma NotifyRoundTrip(n: Notify)
    requires n.Valid()
    ensures ParseNotify(PrintNotify(n).params) == Ok(n)
  {
    hide Encode, DecodePadded, PrintU32, ParseU32, PrintPrevHash, ParsePrevHash, PrintNodes, ParseNodes;
    PrevHashRoundTrip(n.prevHash);
    HexRoundTrip(n.coinBase1);
    HexRoundTrip(n.coinBase2);
    U32RoundTrip(n.version);
    U32RoundTrip(n.bits);
    U32RoundTrip(n.time);
    NodesRoundTrip(n.merkleBranch);
  }

  // mining.set_extranonce

  datatype SetExtranonce = SetExtranonce(extraNonce1: bytes, extraNonce2Size: nat)

  function PrintSetExtranonce(s: SetExtranonce): Message {
    Notification("mining.set_extranonce", Array([Text(Encode(s.extraNonce1)), Number(s.extraNonce2Size)]))
  }

  function ParseSetExtranonce(params: Json): Parsed<SetExtranonce> {
    if !params.Array? || |params.items| != 2 || !params.items[0].Text? || !Numeric(params.items[1]) then Malformed
    else
      var p := params.items;
      var raw :- FromHex(Decode(p[0].s));
      var extra :- ToExtranonce(raw);
      if p[1].Number? then Ok(SetExtranonce(extra, p[1].n)) else Malformed
  }

  lemma SetExtranonceParams(s: SetExtranonce, params: Json)
    ensures ParseSetExtranonce(params) == Ok(s) <==>
            && params.Array? && |params.items| == 2 && params.items[1] == Number(s.extraNonce2Size)
            && params.items[0].Text? && Decode(params.items[0].s) == Some(s.extraNonce1) && |s.extraNonce1| <= 32
    ensures PrintSetExtranonce(s).Notification? && PrintSetExtranonce(s).name == "mining.set_extranonce"
  {
    hide Decode;
  }

  lemma SetExtranonceRoundTrip(s: SetExtranonce)
    requires |s.extraNonce1| <= 32
    ensures ParseSetExtranonce(PrintSetExtranonce(s).params) == Ok(s)
  {
    HexRoundTrip(s.extraNonce1);
  }

  // mining.set_version_mask: printed under one name, parsed under another.

  function PrintSetVersionMask(mask: Word): Message {
    Notification("mining.set_version", Array([Text(PrintU32(mask))]))
  }

  function ParseSetVersionMask(params: Json): Parsed<Word> {
    if !params.Array? || |params.items| != 1 || !params.items[0].Text? then Malformed
    else ParseU32(params.items[0].s)
  }

  lemma SetVersionMaskParams(mask: Word, params: Json)
    ensures ParseSetVersionMask(params) == Ok(mask) <==>
            params.Array? && |params.items| == 1 && params.items[0].Text? && WordIn(params.items[0], mask)
    ensures PrintSetVersionMask(mask) == Notification("mining.set_version", Array([Text(PrintU32(mask))]))
  {
    hide ParseU32, WordIn, PrintU32;
    if params.Array? && |params.items| == 1 { ReadWordExact(params.items[0], mask); }
  }

  // The answer to mining.subscribe

  datatype Subscribed = Subscribed(
    id: nat, extraNonce1: bytes, extraNonce2Size: nat, subscriptions: seq<(string, string)>)

  function PrintPairs(pairs: seq<(string, string)>): seq<Json> {
    seq(|pairs|, i requires 0 <= i < |pairs| => Texts([pairs[i].0, pairs[i].1]))
  }

  function PrintSubscribed(s: Subscribed): Message {
    OkResponse(s.id, Array([Array(PrintPairs(s.subscriptions)), Text(Encode(s.extraNonce1)),
                            Number(s.extraNonce2Size)]))
  }

  // An entry that is no array is unwrapped.
  function ParsePair(j: Json): Parsed<(string, string)> {
    if !j.Array? then Panics
    else if |j.items| == 2 && j.items[0].Text? && j.items[1].Text? then Ok((j.items[0].s, j.items[1].s))
    else Malformed
  }

  function ParsePairs(items: seq<Json>): Parsed<seq<(string, string)>> {
    if items == [] then Ok([])
    else
      var before :- ParsePairs(items[..|items| - 1]);
      var last :- ParsePair(items[|items| - 1]);
      Ok(before + [last])
  }

  function ParseSubscribed(id: nat, result: Json): Parsed<Subscribed> {
    if !result.Array? then Malformed
    else
      var p := result.items;
      if |p| != 3 || !p[0].Array? || !p[1].Text? || !Numeric(p[2]) then Malformed
      else
        var raw :- FromHex(DecodePadded(p[1].s));
        var extra :- ToExtranonce(raw);
        if !p[2].Number? then Malformed
        else
          var pairs :- ParsePairs(p[0].items);
          Ok(Subscribed(id, extra, p[2].n, pairs))
  }

  lemma {:induction false} PairsRoundTrip(pairs: seq<(string, string)>)
    ensures ParsePairs(PrintPairs(pairs)) == Ok(pairs)
  {
    if pairs != [] {
      var front := pairs[..|pairs| - 1];
      PairsRoundTrip(front);
      assert PrintPairs(pairs)[..|pairs| - 1] == PrintPairs(front);
      assert pairs == front + [pairs[|pairs| - 1]];
    }
  }

  // The result's places: the subscriptions, the extranonce, the size of its second part.
  ghost predicate PairsIn(items: seq<Json>, pairs: seq<(string, string)>) {
    |items| == |pairs| && forall i :: 0 <= i < |items| ==> items[i] == Array([Text(pairs[i].0), Text(pairs[i].1)])
  }

  lemma {:induction false} PairsExact(items: seq<Json>, pairs: seq<(string, string)>)
    ensures ParsePairs(items) == Ok(pairs) <==> PairsIn(items, pairs)
  {
    if items != [] && pairs != [] {
      var front, last := pairs[..|pairs| - 1], pairs[|pairs| - 1];
      PairsExact(items[..|items| - 1], front);
      PairExact(items[|items| - 1], last);
      assert pairs == front + [last];
    }
  }

  lemma PairExact(j: Json, pair: (string, string))
    ensures ParsePair(j) == Ok(pair) <==> j == Array([Text(pair.0), Text(pair.1)])
    ensures ParsePair(j) == Panics <==> !j.Array?
  {
  }

  lemma SubscribedParams(s: Subscribed, id: nat, result: Json)
    ensures ParseSubscribed(id, result) == Ok(s) <==>
            && s.id == id && result.Array? && |result.items| == 3
            && result.items[0].Array? && PairsIn(result.items[0].items, s.subscriptions)
            && result.items[1].Text? && DecodePadded(result.items[1].s) == Some(s.extraNonce1) && |s.extraNonce1| <= 32
            && result.items[2] == Number(s.extraNonce2Size)
    ensures PrintSubscribed(s).OkResponse? && PrintSubscribed(s).id == s.id
  {
    hide DecodePadded, ParsePairs, PairsIn;
    if result.Array? && |result.items| == 3 && result.items[0].Array? {
      PairsExact(result.items[0].items, s.subscriptions);
    }
  }

  lemma SubscribedRoundTrip(s: Subscribed)
    requires |s.extraNonce1| <= 32
    ensures ParseSubscribed(s.id, PrintSubscribed(s).result) == Ok(s)
  {
    hide Encode, DecodePadded, PrintPairs, ParsePairs;
    HexRoundTrip(s.extraNonce1);
    PairsRoundTrip(s.subscriptions);
  }

  // The answer to mining.configure

  datatype RollingParams = RollingParams(rolling: bool, mask: Word, minBitCount: Word)

  datatype Configured = Configured(id: nat, rolling: Option<RollingParams>, minimumDifficulty: Option<bool>)
  {
    // What the client takes from it.
    function Mask(): Option<Word> {
      if rolling.Some? && rolling.value.rolling then Some(rolling.value.mask) else None
    }

    function MinBit(): Option<Word> {
      if rolling.Some? && rolling.value.rolling then Some(rolling.value.minBitCount) else None
    }
  }

  const ROLLING := "version-rolling"

  function RollingFields(v: RollingParams): map<string, Json> {
    map[ROLLING := Bool(v.rolling), MASK := Text(PrintU32(v.mask)), MIN_BIT := Text(PrintU32(v.minBitCount))]
  }

  function PrintConfigured(c: Configured): Message {
    OkResponse(c.id, Object(
      (if c.rolling.Some? then RollingFields(c.rolling.value) else map[]) +
      (if c.minimumDifficulty.Some? then map[MIN_DIFF := Bool(c.minimumDifficulty.value)] else map[])))
  }

  function ParseRollingAnswer(f: map<string, Json>): Parsed<Option<RollingParams>> {
    if ROLLING in f && MASK in f then
      if !f[ROLLING].Bool? || !f[MASK].Text? then Malformed
      else
        var mask :- ParseU32(f[MASK].s);
        if MIN_BIT !in f then Ok(Some(RollingParams(f[ROLLING].flag, mask, 0)))
        else if !f[MIN_BIT].Text? then Malformed
        else
          var min :- ParseU32(f[MIN_BIT].s);
          Ok(Some(RollingParams(f[ROLLING].flag, mask, min)))
    else if ROLLING !in f && MASK !in f && MIN_BIT !in f then Ok(None)
    else Malformed
  }

  function ParseConfigured(id: nat, result: Json): Parsed<Configured> {
    if !result.Object? then Malformed
    else
      var f := result.fields;
      var rolling :- ParseRollingAnswer(f);
      if MIN_DIFF !in f then Ok(Configured(id, rolling, None))
      else if !f[MIN_DIFF].Bool? then Malformed
      else Ok(Configured(id, rolling, Some(f[MIN_DIFF].flag)))
  }

  lemma AnswerKeys()
    ensures ROLLING != MASK && ROLLING != MIN_BIT && ROLLING != MIN_DIFF && MASK != MIN_BIT
    ensures MASK != MIN_DIFF && MIN_BIT != MIN_DIFF
  {
    assert |ROLLING| == 15 && |MASK| == 20 && |MIN_BIT| == 29 && |MIN_DIFF| == 18;
  }

  // The result's keys.
  ghost predicate RollingAnswerIn(f: map<string, Json>, r: Option<RollingParams>) {
    if r == None
    then "version-rolling" !in f && "version-rolling.mask" !in f && "version-rolling.min-bit-count" !in f
    else
      && "version-rolling" in f && f["version-rolling"] == Bool(r.value.rolling)
      && "version-rolling.mask" in f && f["version-rolling.mask"].Text? &&
         WordIn(f["version-rolling.mask"], r.value.mask)
      && (if "version-rolling.min-bit-count" in f
          then f["version-rolling.min-bit-count"].Text? &&
          WordIn(f["version-rolling.min-bit-count"], r.value.minBitCount)
          else r.value.minBitCount == 0)
  }

  lemma ConfiguredParams(c: Configured, id: nat, result: Json)
    ensures ParseConfigured(id, result) == Ok(c) <==>
            && c.id == id && result.Object? && RollingAnswerIn(result.fields, c.rolling)
            && (if c.minimumDifficulty == None then "minimum-difficulty" !in result.fields
                else "minimum-difficulty" in result.fields &&
                     result.fields["minimum-difficulty"] == Bool(c.minimumDifficulty.value))
    ensures PrintConfigured(c).OkResponse? && PrintConfigured(c).id == c.id
  {
    hide ParseU32, WordIn;
    AnswerKeys();
    if result.Object? {
      var f := result.fields;
      if MASK in f && c.rolling.Some? {
        ReadWordExact(f[MASK], c.rolling.value.mask);
        if MIN_BIT in f { ReadWordExact(f[MIN_BIT], c.rolling.value.minBitCount); }
      }
    }
  }

  lemma ConfiguredRoundTrip(c: Configured)
    ensures ParseConfigured(c.id, PrintConfigured(c).result) == Ok(c)
  {
    hide PrintU32, ParseU32;
    AnswerKeys();
    if c.rolling.Some? {
      U32RoundTrip(c.rolling.value.mask);
      U32RoundTrip(c.rolling.value.minBitCount);
    }
  }

  // Telling responses apart.

  datatype Response =
    | ConfigureResponse(configured: Configured)
    | SubscribeResponse(subscribed: Subscribed)
    | GeneralResponse(id: nat, flag: bool)
    | AuthorizeResponse(name: string, authorized: bool)
    | SubmitResponse

  function ParseGeneral(id: nat, result: Json): Parsed<Response> {
    if result.Bool? then Ok(GeneralResponse(id, result.flag)) else Malformed
  }

  datatype Classified = Is(response: Response) | Unreadable | ParserPanics | Impossible

  // `TryFrom<Response>`: all three are tried, and more than one would be an impossible state.
  function Classify(id: nat, result: Json): Classified {
    match (ParseSubscribed(id, result), ParseConfigured(id, result), ParseGeneral(id, result))
    case (Panics, _, _) => ParserPanics
    case (_, Panics, _) => ParserPanics
    case (_, _, Panics) => ParserPanics
    case (Ok(s), Malformed, Malformed) => Is(SubscribeResponse(s))
    case (Malformed, Ok(c), Malformed) => Is(ConfigureResponse(c))
    case (Malformed, Malformed, Ok(g)) => Is(g)
    case (Malformed, Malformed, Malformed) => Unreadable
    case _ => Impossible
  }

  // No result is two kinds of response at once, and each kind shows in the type of its JSON.
  lemma ClassifyExclusive(id: nat, result: Json)
    ensures Classify(id, result) != Impossible
    ensures var c := Classify(id, result);
            c.Is? ==>
              && (c.response.SubscribeResponse? <==> result.Array?)
              && (c.response.ConfigureResponse? <==> result.Object?)
              && (c.response.GeneralResponse? <==> result.Bool?)
  {
  }

  // Responses as the server prints them are classified as what they are.
  lemma ClassifyPrinted(s: Subscribed, c: Configured, id: nat, flag: bool)
    requires |s.extraNonce1| <= 32
    ensures Classify(s.id, PrintSubscribed(s).result) == Is(SubscribeResponse(s))
    ensures Classify(c.id, PrintConfigured(c).result) == Is(ConfigureResponse(c))
    ensures Classify(id, Bool(flag)) == Is(GeneralResponse(id, flag))
  {
    SubscribedRoundTrip(s);
    ConfiguredRoundTrip(c);
  }
}
