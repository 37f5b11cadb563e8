/** Stratum V1 messages from client to server, and the JSON-RPC values that carry them. */
module Sv1Requests {
  import opened Bytes
  import opened Hex

  // `Fraction` stands for the numbers that are not unsigned integers.
  datatype Json =
    | Null
    | Bool(flag: bool)
    | Number(n: nat)
    | Fraction
    | Text(s: string)
    | Array(items: seq<Json>)
    | Object(fields: map<string, Json>)

  datatype Message =
    | Request(id: nat, name: string, params: Json)
    | Notification(name: string, params: Json)
    | OkResponse(id: nat, result: Json)
    | ErrorResponse(id: nat, result: Json)

  function Texts(items: seq<string>): Json {
    Array(seq(|items|, i requires 0 <= i < |items| => Text(items[i])))
  }

  // mining.authorize

  datatype Authorize = Authorize(id: nat, name: string, password: string)

  function PrintAuthorize(a: Authorize): Message {
    Request(a.id, "mining.authorize", Texts([a.name, a.password]))
  }

  function ParseAuthorize(id: nat, params: Json): Parsed<Authorize> {
    if !params.Array? then Malformed
    else
      var p := params.items;
      if |p| == 2 && p[0].Text? && p[1].Text? then Ok(Authorize(id, p[0].s, p[1].s)) else Malformed
  }

  // The method's name and the place of each parameter.
  lemma AuthorizeParams(a: Authorize, id: nat, params: Json)
    ensures PrintAuthorize(a) == Request(a.id, "mining.authorize", Array([Text(a.name), Text(a.password)]))
    ensures ParseAuthorize(id, params) == Ok(a) <==>
            params == Array([Text(a.name), Text(a.password)]) && a.id == id
  {
    assert Texts([a.name, a.password]).items == [Text(a.name), Text(a.password)];
  }

  lemma AuthorizeRoundTrip(a: Authorize)
    ensures var m := PrintAuthorize(a); ParseAuthorize(m.id, m.params) == Ok(a)
  {
  }

  // mining.submit

  datatype Submit = Submit(
    userName: string, jobId: string, extraNonce2: bytes, time: Word, nonce: Word, versionBits: Option<Word>, id: nat)

  function PrintSubmit(s: Submit): Message {
    Request(s.id, "mining.submit",
            Texts([s.userName, s.jobId, Encode(s.extraNonce2), PrintU32(s.time), PrintU32(s.nonce)] +
                  if s.versionBits.Some? then [PrintU32(s.versionBits.value)] else []))
  }

  predicate Numeric(j: Json) {
    j.Number? || j.Fraction?
  }

  // `as_u64().unwrap() as u32`
  function NumberWord(j: Json): Parsed<Word>
    requires Numeric(j)
  {
    if j.Number? then Ok(WordOf(j.n)) else Panics
  }

  function ReadWord(j: Json): Parsed<Word>
    requires Numeric(j) || j.Text?
  {
    if j.Text? then ParseU32(j.s) else NumberWord(j)
  }

  // Time and nonce are both numbers or both strings.
  predicate SubmitShape(p: seq<Json>) {
    && (|p| == 5 || (|p| == 6 && p[5].Text?))
    && p[0].Text? && p[1].Text? && p[2].Text?
    && ((Numeric(p[3]) && Numeric(p[4])) || (p[3].Text? && p[4].Text?))
  }

  function ParseSubmit(id: nat, params: Json): Parsed<Submit> {
    if !params.Array? || !SubmitShape(params.items) then Malformed
    else
      var p := params.items;
      var raw :- FromHex(Decode(p[2].s));
      var extra :- ToExtranonce(raw);
      var time :- ReadWord(p[3]);
      var nonce :- ReadWord(p[4]);
      if |p| == 5 then Ok(Submit(p[0].s, p[1].s, extra, time, nonce, None, id))
      else
        var bits :- ParseU32(p[5].s);
        Ok(Submit(p[0].s, p[1].s, extra, time, nonce, Some(bits), id))
  }

  // A 32-bit word from a string of digits, or from a number cut to 32 bits.
  ghost predicate WordIn(j: Json, w: Word) {
    || (j.Text? && |j.s| <= 8 && AllDigits(j.s) && HexNat(j.s) == w as nat)
    || (j.Number? && j.n % 0x1_0000_0000 == w as nat)
  }

  lemma ReadWordExact(j: Json, w: Word)
    ensures (Numeric(j) || j.Text?) && ReadWord(j) == Ok(w) <==> WordIn(j, w)
    ensures j.Text? ==> (ParseU32(j.s) == Ok(w) <==> WordIn(j, w))
    ensures (Numeric(j) || j.Text?) && ReadWord(j) == Panics <==> j.Fraction? || (j.Text? && |j.s| > 8)
  {
    hide ParseWord, AllDigits, HexNat;
    if j.Text? { WordExact(j.s, w as nat); }
  }

  // What a share's parameters are, by place.
  ghost predicate SubmitParams(p: seq<Json>, s: Submit) {
    && |p| == (if s.versionBits == None then 5 else 6)
    && p[0] == Text(s.userName) && p[1] == Text(s.jobId)
    && p[2].Text? && Decode(p[2].s) == Some(s.extraNonce2)
    && WordIn(p[3], s.time) && WordIn(p[4], s.nonce) && (p[3].Text? <==> p[4].Text?)
    && (s.versionBits.Some? ==> p[5].Text? && WordIn(p[5], s.versionBits.value))
  }

  lemma SubmitParamsExact(s: Submit, id: nat, params: Json)
    ensures ParseSubmit(id, params) == Ok(s) <==>
            params.Array? && SubmitParams(params.items, s) && |s.extraNonce2| <= 32 && s.id == id
  {
    hide ReadWord, ParseU32, Decode, WordIn;
    if params.Array? {
      var p := params.items;
      if |p| > 4 {
        ReadWordExact(p[3], s.time);
        ReadWordExact(p[4], s.nonce);
        WordsReadable(p[3], s.time);
        WordsReadable(p[4], s.nonce);
      }
      if |p| == 6 && s.versionBits.Some? { ReadWordExact(p[5], s.versionBits.value); }
    }
  }

  lemma WordsReadable(j: Json, w: Word)
    ensures WordIn(j, w) ==> Numeric(j) || j.Text?
  {
  }

  // A request under a name, its parameters in an array.
  ghost predicate Requests(m: Message, id: nat, name: string) {
    m.Request? && m.id == id && m.name == name && m.params.Array?
  }

  lemma SubmitPrinted(s: Submit)
    ensures var m := PrintSubmit(s); Requests(m, s.id, "mining.submit") && SubmitParams(m.params.items, s)
  {
    hide Encode, Decode, PrintU32, WordIn;
    HexRoundTrip(s.extraNonce2);
    WordPrinted(s.time);
    WordPrinted(s.nonce);
    if s.versionBits.Some? { WordPrinted(s.versionBits.value); }
  }

  lemma WordPrinted(w: Word)
    ensures WordIn(Text(PrintU32(w)), w)
  {
    hide PrintU32, ParseU32, WordIn;
    U32RoundTrip(w);
    ReadWordExact(Text(PrintU32(w)), w);
  }

  lemma SubmitRoundTrip(s: Submit)
    requires |s.extraNonce2| <= 32
    ensures var m := PrintSubmit(s); ParseSubmit(m.id, m.params) == Ok(s)
  {
    hide Encode, Decode, PrintU32, ParseU32;
    HexRoundTrip(s.extraNonce2);
    U32RoundTrip(s.time);
    U32RoundTrip(s.nonce);
    if s.versionBits.Some? { U32RoundTrip(s.versionBits.value); }
  }

  // mining.subscribe

  datatype Subscribe = Subscribe(id: nat, agentSignature: string, extranonce1: Option<bytes>)

  function PrintSubscribe(s: Subscribe): Message {
    Request(s.id, "mining.subscribe",
            Texts([s.agentSignature] + if s.extranonce1.Some? then [Encode(s.extranonce1.value)] else []))
  }

  function ParseSubscribe(id: nat, params: Json): Parsed<Subscribe> {
    if !params.Array? then Malformed
    else
      var p := params.items;
      if |p| == 0 then Ok(Subscribe(id, "", None))
      else if !p[0].Text? then Malformed
      else if |p| == 1 then Ok(Subscribe(id, p[0].s, None))
      else if p[1].Null? && (|p| == 2 || (|p| == 4 && p[2].Text? && p[3].Null?)) then Ok(Subscribe(id, p[0].s, None))
      else if |p| == 2 && p[1].Text? then
        var raw :- FromHex(DecodePadded(p[1].s));
        var extra :- ToExtranonce(raw);
        Ok(Subscribe(id, p[0].s, Some(extra)))
      else Malformed
  }

  // A subscription's parameters, by place: nothing, a signature, and perhaps an extranonce or fillers.
  ghost predicate SubscribeParams(p: seq<Json>, s: Subscribe) {
    if p == [] then s.agentSignature == "" && s.extranonce1 == None
    else
      && p[0] == Text(s.agentSignature)
      && (s.extranonce1 == None <==>
          |p| == 1 || p[1..] == [Null] || (|p| == 4 && p[1].Null? && p[2].Text? && p[3].Null?))
      && (s.extranonce1.Some? ==>
            |p| == 2 && p[1].Text? && DecodePadded(p[1].s) == s.extranonce1)
  }

  lemma SubscribeParamsExact(s: Subscribe, id: nat, params: Json)
    ensures ParseSubscribe(id, params) == Ok(s) <==>
            && params.Array? && SubscribeParams(params.items, s) && s.id == id
            && (s.extranonce1.Some? ==> |s.extranonce1.value| <= 32)
  {
    hide DecodePadded;
  }

  lemma SubscribePrinted(s: Subscribe)
    ensures var m := PrintSubscribe(s); Requests(m, s.id, "mining.subscribe") && SubscribeParams(m.params.items, s)
  {
    hide Encode, DecodePadded;
    var p := PrintSubscribe(s).params.items;
    if s.extranonce1.Some? {
      HexRoundTrip(s.extranonce1.value);
      assert p[1..][0] == p[1];
    }
  }

  lemma SubscribeRoundTrip(s: Subscribe)
    requires s.extranonce1.Some? ==> |s.extranonce1.value| <= 32
    ensures var m := PrintSubscribe(s); ParseSubscribe(m.id, m.params) == Ok(s)
  {
    hide Encode, DecodePadded;
    if s.extranonce1.Some? { HexRoundTrip(s.extranonce1.value); }
  }

  // mining.configure

  datatype Extension =
    | VersionRolling(mask: Option<Word>, minBitCount: Option<Word>)
    | MinimumDifficulty(value: nat)
    | SubscribeExtranonce
    | Info(url: Option<string>, hwId: Option<string>, hwVersion: Option<string>, swVersion: Option<string>)

  datatype Configure = Configure(extensions: seq<Extension>, id: nat)

  const MASK := "version-rolling.mask"
  const MIN_BIT := "version-rolling.min-bit-count"
  const URL := "info.connection-url"
  const HW_VERSION := "info.hw-version"
  const SW_VERSION := "info.sw-version"
  const HW_ID := "info.hw-id"
  const MIN_DIFF := "minimum-difficulty"
  const MIN_DIFF_VALUE := "minimum-difficulty.value"
  const SUBSCRIBE := "subscribe-extranonce"

  function NameOf(e: Extension): Json {
    Text(match e
         case VersionRolling(_, _) => "version-rolling"
         case MinimumDifficulty(_) => MIN_DIFF
         case SubscribeExtranonce => SUBSCRIBE
         case Info(_, _, _, _) => "info")
  }

  function OptionalWord(key: string, w: Option<Word>): map<string, Json> {
    if w.Some? then map[key := Text(PrintU32(w.value))] else map[]
  }

  function FieldsOf(e: Extension): map<string, Json> {
    match e
    case VersionRolling(mask, min) => OptionalWord(MASK, mask) + OptionalWord(MIN_BIT, min)
    case MinimumDifficulty(v) => map[MIN_DIFF := Number(v)]
    case SubscribeExtranonce => map[]
    case Info(url, _, _, _) => if url.Some? then map[URL := Text(url.value)] else map[]
  }

  // Later extensions overwrite the fields of earlier ones.
  function AllFields(es: seq<Extension>): map<string, Json> {
    if es == [] then map[] else AllFields(es[..|es| - 1]) + FieldsOf(es[|es| - 1])
  }

  function AllNames(es: seq<Extension>): seq<Json> {
    seq(|es|, i requires 0 <= i < |es| => NameOf(es[i]))
  }

  function PrintConfigure(c: Configure): Message {
    Request(c.id, "mining.configure", Array([Array(AllNames(c.extensions)), Object(AllFields(c.extensions))]))
  }

  // A field of the second element, by its JSON path.
  function Lookup(root: seq<Json>, key: string): Option<Json> {
    if |root| > 1 && root[1].Object? && key in root[1].fields then Some(root[1].fields[key]) else None
  }

  function ParseRolling(mask: Option<Json>, min: Option<Json>): Parsed<seq<Extension>> {
    if mask == None then if min == None then Ok([]) else Malformed
    else if !mask.value.Text? then Malformed
    else if min.Some? && !min.value.Text? && !Numeric(min.value) then Malformed
    else
      var m :- ParseU32(mask.value.s);
      if min == None then Ok([VersionRolling(Some(m), None)])
      else
        var k :- ReadWord(min.value);
        Ok([VersionRolling(Some(m), Some(k))])
  }

  function ParseMinimum(value: Option<Json>): Parsed<seq<Extension>> {
    match value
    case None => Ok([])
    case Some(Number(n)) => Ok([MinimumDifficulty(n)])
    case Some(_) => Malformed
  }

  function OptionalText(j: Option<Json>): Parsed<Option<string>> {
    match j
    case None => Ok(None)
    case Some(Text(s)) => Ok(Some(s))
    case Some(_) => Malformed
  }

  function ParseInfo(url: Option<Json>, hwId: Option<Json>, hwVersion: Option<Json>, swVersion: Option<Json>)
    : Parsed<seq<Extension>>
  {
    if url == None && hwId == None && hwVersion == None && swVersion == None then Ok([])
    else
      var u :- OptionalText(url);
      var i :- OptionalText(hwId);
      var h :- OptionalText(hwVersion);
      var s :- OptionalText(swVersion);
      Ok([Info(u, i, h, s)])
  }

  // `ConfigureExtension::from_value`
  function ParseExtensions(params: Json): Parsed<seq<Extension>> {
    if !params.Array? || params.items == [] || !params.items[0].Array? then Malformed
    else
      var root := params.items;
      var subscribe := if Text(SUBSCRIBE) in root[0].items then [SubscribeExtranonce] else [];
      var rolling :- ParseRolling(Lookup(root, MASK), Lookup(root, MIN_BIT));
      var minimum :- ParseMinimum(Lookup(root, MIN_DIFF_VALUE));
      var info :- ParseInfo(Lookup(root, URL), Lookup(root, HW_ID), Lookup(root, HW_VERSION), Lookup(root, SW_VERSION));
      Ok(subscribe + rolling + minimum + info)
  }

  function ParseConfigure(id: nat, params: Json): Parsed<Configure> {
    var es :- ParseExtensions(params);
    Ok(Configure(es, id))
  }

  // What the extensions of a request are read from, key by key.
  ghost predicate RollingIn(f: map<string, Json>, mask: Option<Word>, min: Option<Word>) {
    && "version-rolling.mask" in f && f["version-rolling.mask"].Text?
    && mask.Some? && WordIn(f["version-rolling.mask"], mask.value)
    && (if "version-rolling.min-bit-count" in f
        then min.Some? && WordIn(f["version-rolling.min-bit-count"], min.value)
        else min == None)
  }

  ghost predicate InfoIn(f: map<string, Json>, key: string, text: Option<string>) {
    if key in f then text.Some? && f[key] == Text(text.value) else text == None
  }

  ghost predicate InfosIn(f: map<string, Json>, e: Extension)
    requires e.Info?
  {
    && InfoIn(f, "info.connection-url", e.url) && InfoIn(f, "info.hw-id", e.hwId)
    && InfoIn(f, "info.hw-version", e.hwVersion) && InfoIn(f, "info.sw-version", e.swVersion)
    && (e.url.Some? || e.hwId.Some? || e.hwVersion.Some? || e.swVersion.Some?)
  }

  ghost predicate ExtensionIn(names: seq<Json>, f: map<string, Json>, e: Extension) {
    match e
    case SubscribeExtranonce => Text("subscribe-extranonce") in names
    case VersionRolling(mask, min) => RollingIn(f, mask, min)
    case MinimumDifficulty(v) => "minimum-difficulty.value" in f && f["minimum-difficulty.value"] == Number(v)
    case Info(_, _, _, _) => InfosIn(f, e)
  }

  // A request that is read has exactly the extensions its names and fields give.
  lemma ExtensionsRead(names: seq<Json>, f: map<string, Json>, e: Extension)
    ensures var r := ParseExtensions(Array([Array(names), Object(f)]));
            r.Ok? ==> (e in r.value <==> ExtensionIn(names, f, e))
    ensures "version-rolling.mask" !in f && "version-rolling.min-bit-count" in f ==>
              ParseExtensions(Array([Array(names), Object(f)])) == Malformed
  {
    hide ReadWord, ParseU32, WordIn;
    var root := [Array(names), Object(f)];
    var rolling := ParseRolling(Lookup(root, MASK), Lookup(root, MIN_BIT));
    var info := ParseInfo(Lookup(root, URL), Lookup(root, HW_ID), Lookup(root, HW_VERSION), Lookup(root, SW_VERSION));
    if rolling.Ok? { RollingRead(f, e, rolling.value); }
    if info.Ok? { InfosRead(f, e, info.value); }
  }

  lemma RollingRead(f: map<string, Json>, e: Extension, rolling: seq<Extension>)
    requires ParseRolling(Lookup([Null, Object(f)], MASK), Lookup([Null, Object(f)], MIN_BIT)) == Ok(rolling)
    ensures e in rolling <==> e.VersionRolling? && RollingIn(f, e.mask, e.minBitCount)
  {
    hide ReadWord, ParseU32, WordIn;
    if MASK in f && e.VersionRolling? && e.mask.Some? {
      ReadWordExact(f[MASK], e.mask.value);
      if MIN_BIT in f && e.minBitCount.Some? { ReadWordExact(f[MIN_BIT], e.minBitCount.value); }
    }
  }

  lemma InfosRead(f: map<string, Json>, e: Extension, info: seq<Extension>)
    requires ParseInfo(Lookup([Null, Object(f)], URL), Lookup([Null, Object(f)], HW_ID),
                       Lookup([Null, Object(f)], HW_VERSION), Lookup([Null, Object(f)], SW_VERSION)) == Ok(info)
    ensures e in info <==> e.Info? && InfosIn(f, e)
  {
  }

  // The request a client with a mask or a bit count sends, key by key; without either it is empty.
  ghost predicate ConfigureParams(p: seq<Json>, mask: Option<Word>, min: Option<Word>) {
    && |p| == 2
    && p[0] == Array(if mask == min == None then [] else [Text("version-rolling")])
    && p[1].Object?
    && (forall key :: key in p[1].fields <==>
          || (mask.Some? && key == "version-rolling.mask")
          || (min.Some? && key == "version-rolling.min-bit-count"))
    && (mask.Some? ==> p[1].fields["version-rolling.mask"] == Text(PrintU32(mask.value)))
    && (min.Some? ==> p[1].fields["version-rolling.min-bit-count"] == Text(PrintU32(min.value)))
  }

  lemma ConfigurePrinted(id: nat, mask: Option<Word>, min: Option<Word>)
    ensures var m := PrintConfigure(Configure(if mask == None && min == None then []
                                              else [VersionRolling(mask, min)], id));
            Requests(m, id, "mining.configure") && ConfigureParams(m.params.items, mask, min)
  {
    hide PrintU32;
    Keys();
    var es := if mask == None && min == None then [] else [VersionRolling(mask, min)];
    if es != [] {
      assert es[..0] == [] && AllFields(es[..0]) == map[];
      var f := OptionalWord(MASK, mask) + OptionalWord(MIN_BIT, min);
      assert AllFields(es) == map[] + f == f;
      assert AllNames(es) == [Text("version-rolling")];
    }
  }

  // The requests that come back whole: at most one subscription, one masked version rolling and one
  // info with nothing but an address, in this order.
  datatype Canon = Canon(subscribe: bool, mask: Option<Word>, min: Option<Word>, url: Option<string>)

  function Rolling(c: Canon): seq<Extension> {
    if c.mask.Some? then [VersionRolling(c.mask, c.min)] else []
  }

  function Address(c: Canon): seq<Extension> {
    if c.url.Some? then [Info(c.url, None, None, None)] else []
  }

  function Listed(c: Canon): seq<Extension> {
    (if c.subscribe then [SubscribeExtranonce] else []) + Rolling(c) + Address(c)
  }

  ghost predicate Canonical(es: seq<Extension>) {
    exists c: Canon :: es == Listed(c)
  }

  // Names the printer never writes, and the kinds of value it writes.
  lemma {:induction false} Printed(es: seq<Extension>)
    ensures var f := AllFields(es);
            && MIN_DIFF_VALUE !in f && HW_ID !in f && HW_VERSION !in f && SW_VERSION !in f
            && (MASK in f ==> exists w :: f[MASK] == Text(PrintU32(w)))
            && (MIN_BIT in f ==> exists w :: f[MIN_BIT] == Text(PrintU32(w)))
            && (URL in f ==> f[URL].Text?)
  {
    hide PrintU32;
    if es != [] {
      Printed(es[..|es| - 1]);
      Keys();
    }
  }

  lemma Keys()
    ensures MASK != MIN_BIT && MASK != URL && MIN_BIT != URL
    ensures MIN_DIFF != MASK && MIN_DIFF != MIN_BIT && MIN_DIFF != URL && MIN_DIFF != MIN_DIFF_VALUE
    ensures MIN_DIFF_VALUE != MASK && MIN_DIFF_VALUE != MIN_BIT && MIN_DIFF_VALUE != URL
    ensures HW_ID !in {MASK, MIN_BIT, URL, MIN_DIFF} && HW_VERSION !in {MASK, MIN_BIT, URL, MIN_DIFF}
    ensures SW_VERSION !in {MASK, MIN_BIT, URL, MIN_DIFF}
  {
    assert MASK[0] == 'v' && MIN_BIT[0] == 'v' && URL[0] == 'i' && MIN_DIFF[0] == 'm' && MIN_DIFF_VALUE[0] == 'm';
    assert |MASK| == 20 && |MIN_BIT| == 29 && |MIN_DIFF| == 18 && |MIN_DIFF_VALUE| == 24 && |URL| == 19;
    assert HW_ID[0] == HW_VERSION[0] == SW_VERSION[0] == 'i';
    assert |HW_ID| == 10 && |HW_VERSION| == 15 && |SW_VERSION| == 15;
  }

  // What the parser makes of a printed request: something canonical, or nothing.
  lemma ParsedIsCanonical(es: seq<Extension>)
    ensures var r := ParseConfigure(0, PrintConfigure(Configure(es, 0)).params);
            r.Ok? ==> Canonical(r.value.extensions)
  {
    hide PrintU32, ParseU32, AllFields, AllNames;
    Printed(es);
    var f := AllFields(es);
    var root := [Array(AllNames(es)), Object(f)];
    var subscribe := Text(SUBSCRIBE) in AllNames(es);
    var rolling := ParseRolling(Lookup(root, MASK), Lookup(root, MIN_BIT));
    if rolling.Ok? {
      var (mask, min) := if rolling.value == [] then (None, None)
          else (rolling.value[0].mask, rolling.value[0].minBitCount);
      var url := if URL in f then Some(f[URL].s) else None;
      var c := Canon(subscribe, mask, min, url);
      assert rolling.value == Rolling(c);
      assert ParseInfo(Lookup(root, URL), None, None, None) == Ok(Address(c));
      var got := (if subscribe then [SubscribeExtranonce] else []) + rolling.value + [] + Address(c);
      assert got == Listed(c);
    }
  }

  // The fields of a canonical request.
  function AddressField(c: Canon): map<string, Json> {
    if c.url.Some? then map[URL := Text(c.url.value)] else map[]
  }

  function FirstFields(es: seq<Extension>): map<string, Json> {
    if es == [] then map[] else FieldsOf(es[0])
  }

  lemma PartFields(c: Canon)
    requires c.mask == None ==> c.min == None
    ensures FirstFields(Rolling(c)) == OptionalWord(MASK, c.mask) + OptionalWord(MIN_BIT, c.min)
    ensures FirstFields(Address(c)) == AddressField(c)
  {
  }

  lemma CanonicalFields(c: Canon)
    requires c.mask == None ==> c.min == None
    ensures AllFields(Listed(c)) == (OptionalWord(MASK, c.mask) + OptionalWord(MIN_BIT, c.min)) + AddressField(c)
  {
    hide OptionalWord, AddressField, AllFields, FirstFields, FieldsOf;
    PartFields(c);
    var first: seq<Extension> := if c.subscribe then [SubscribeExtranonce] else [];
    FirstIsBare(first);
    FieldsAppend(first, Rolling(c));
    FieldsAppend(first + Rolling(c), Address(c));
    var rolling := FirstFields(Rolling(c));
    assert map[] + rolling == rolling;
  }

  lemma FirstIsBare(first: seq<Extension>)
    requires first == [] || first == [SubscribeExtranonce]
    ensures AllFields(first) == map[]
  {
    assert first == [] || first[..0] == [];
  }

  lemma FieldsAppend(es: seq<Extension>, more: seq<Extension>)
    requires |more| <= 1
    ensures AllFields(es + more) == AllFields(es) + FirstFields(more)
  {
    hide FieldsOf;
    if more == [] {
      assert es + more == es;
    } else {
      assert (es + more)[..|es|] == es;
    }
  }

  lemma CanonicalNames(c: Canon)
    ensures Text(SUBSCRIBE) in AllNames(Listed(c)) <==> c.subscribe
  {
    var es := Listed(c);
    assert |SUBSCRIBE| == 20 && |"version-rolling"| == 15 && |"info"| == 4;
    if c.subscribe {
      assert AllNames(es)[0] == Text(SUBSCRIBE);
    } else {
      assert forall i :: 0 <= i < |es| ==> es[i].VersionRolling? || es[i].Info?;
      assert forall i :: 0 <= i < |es| ==> AllNames(es)[i] == NameOf(es[i]);
    }
  }

  lemma CanonicalRoundTrip(c: Canon, id: nat)
    requires c.mask == None ==> c.min == None
    ensures ParseConfigure(id, PrintConfigure(Configure(Listed(c), id)).params) == Ok(Configure(Listed(c), id))
  {
    hide PrintU32, ParseU32, AllFields, AllNames;
    CanonicalFields(c);
    CanonicalNames(c);
    Keys();
    if c.mask.Some? { U32RoundTrip(c.mask.value); }
    if c.min.Some? { U32RoundTrip(c.min.value); }
    var es := Listed(c);
    var root := [Array(AllNames(es)), Object(AllFields(es))];
    assert ParseRolling(Lookup(root, MASK), Lookup(root, MIN_BIT)) == Ok(Rolling(c));
    assert ParseInfo(Lookup(root, URL), Lookup(root, HW_ID), Lookup(root, HW_VERSION), Lookup(root, SW_VERSION)) ==
           Ok(Address(c));
    assert (if c.subscribe then [SubscribeExtranonce] else []) + Rolling(c) + [] + Address(c) == es;
  }

  // A configure request survives print and parse exactly when it is canonical; those the client
  // sends with a mask are.
  lemma ConfigureRoundTripExactly(r: Configure)
    ensures ParseConfigure(r.id, PrintConfigure(r).params) == Ok(r) <==> Canonical(r.extensions)
  {
    hide ParseExtensions, AllFields, AllNames;
    if Canonical(r.extensions) {
      var c: Canon :| r.extensions == Listed(c);
      var d := if c.mask == None then c.(min := None) else c;
      assert Listed(d) == Listed(c);
      CanonicalRoundTrip(d, r.id);
    } else {
      ParsedIsCanonical(r.extensions);
    }
  }

  lemma MaskedIsCanonical(mask: Word, min: Option<Word>)
    ensures Canonical([VersionRolling(Some(mask), min)]) && Canonical([])
  {
    assert Listed(Canon(false, Some(mask), min, None)) == [VersionRolling(Some(mask), min)];
    assert Listed(Canon(false, None, None, None)) == [];
  }

  // The mask and bit count a request asks for: those of its last version rolling, or the defaults.
  const DEFAULT_MASK: Word := 0x1FFFE000

  function OrElse(w: Option<Word>, d: Word): Word {
    if w.Some? then w.value else d
  }

  function MaskOf(es: seq<Extension>): Option<Word> {
    if es == [] then None
    else
      match es[|es| - 1]
      case VersionRolling(mask, _) => Some(OrElse(mask, DEFAULT_MASK))
      case _ => MaskOf(es[..|es| - 1])
  }

  function MinBitOf(es: seq<Extension>): Option<Word> {
    if es == [] then None
    else
      match es[|es| - 1]
      case VersionRolling(_, min) => Some(OrElse(min, 0))
      case _ => MinBitOf(es[..|es| - 1])
  }

  // The last version rolling of a request decides: its own values, or 0x1FFFE000 and none.
  ghost predicate LastRolling(es: seq<Extension>, i: nat) {
    i < |es| && es[i].VersionRolling? && forall j :: i < j < |es| ==> !es[j].VersionRolling?
  }

  ghost predicate AsksFor(es: seq<Extension>, mask: Option<Word>, min: Option<Word>) {
    if exists i: nat :: LastRolling(es, i) then
      exists i: nat ::
        && LastRolling(es, i)
        && mask == Some(if es[i].mask.Some? then es[i].mask.value else 0x1FFFE000)
        && min == Some(if es[i].minBitCount.Some? then es[i].minBitCount.value else 0)
    else mask == min == None
  }

  lemma {:induction false} MaskIsLast(es: seq<Extension>)
    ensures AsksFor(es, MaskOf(es), MinBitOf(es))
  {
    if es != [] {
      var front, last := es[..|es| - 1], es[|es| - 1];
      if last.VersionRolling? {
        assert LastRolling(es, |es| - 1);
      } else {
        MaskIsLast(front);
        RollingStays(front, last);
        assert es == front + [last];
      }
    }
  }

  lemma RollingStays(front: seq<Extension>, last: Extension)
    requires !last.VersionRolling?
    ensures forall i: nat :: LastRolling(front + [last], i) <==> LastRolling(front, i)
    ensures forall mask, min :: AsksFor(front, mask, min) ==> AsksFor(front + [last], mask, min)
  {
    var all := front + [last];
    assert all[|front|] == last;
    forall i: nat ensures LastRolling(all, i) <==> LastRolling(front, i) {
      assert forall j :: 0 <= j < |front| ==> all[j] == front[j];
    }
    forall mask, min | AsksFor(front, mask, min) ensures AsksFor(all, mask, min) {
      if exists i: nat :: LastRolling(front, i) {
        var i: nat :| && LastRolling(front, i)
                      && mask == Some(if front[i].mask.Some? then front[i].mask.value else 0x1FFFE000)
                      && min == Some(if front[i].minBitCount.Some? then front[i].minBitCount.value else 0);
        assert LastRolling(all, i) && all[i] == front[i];
      }
    }
  }

  lemma AsksForOne(es: seq<Extension>, mask: Option<Word>, min: Option<Word>)
    requires AsksFor(es, mask, min)
    ensures mask == MaskOf(es) && min == MinBitOf(es)
  {
    MaskIsLast(es);
  }

  method VersionRollingMask(c: Configure) returns (res: Option<Word>)
    ensures res == MaskOf(c.extensions)
    ensures exists min :: AsksFor(c.extensions, res, min)
  {
    res := None;
    for i := 0 to |c.extensions|
      invariant res == MaskOf(c.extensions[..i])
    {
      var ext := c.extensions[i];
      assert c.extensions[..i + 1][..i] == c.extensions[..i];
      if ext.VersionRolling? {
        res := Some(OrElse(ext.mask, DEFAULT_MASK));
      }
    }
    assert c.extensions[..|c.extensions|] == c.extensions;
    MaskIsLast(c.extensions);
  }

  method VersionRollingMinBitCount(c: Configure) returns (res: Option<Word>)
    ensures res == MinBitOf(c.extensions)
    ensures exists mask :: AsksFor(c.extensions, mask, res)
  {
    res := None;
    for i := 0 to |c.extensions|
      invariant res == MinBitOf(c.extensions[..i])
    {
      var ext := c.extensions[i];
      assert c.extensions[..i + 1][..i] == c.extensions[..i];
      if ext.VersionRolling? {
        res := Some(OrElse(ext.minBitCount, 0));
      }
    }
    assert c.extensions[..|c.extensions|] == c.extensions;
    MaskIsLast(c.extensions);
  }
}
