/** Mint keysets: 64 signing keys on the wire, and the CDK form with its ordered map. */
module Keyset {
  import opened Bytes

  const KEY_SIZE: nat := 41
  const NUM_KEYS: nat := 64
  const U64: nat := 0x1_0000_0000_0000_0000

  datatype Key = Key(amount: nat, parity: bool, pubkey: bytes) {
    predicate Valid() {
      amount < U64 && |pubkey| == 32
    }
  }

  ghost predicate AllValid(keys: seq<Key>) {
    forall i :: 0 <= i < |keys| ==> keys[i].Valid()
  }

  // The wire.

  function KeyBytes(k: Key): (b: bytes)
    requires k.Valid()
    ensures |b| == KEY_SIZE
  {
    LeBytes(k.amount, 8) + [if k.parity then 1 else 0] + k.pubkey
  }

  // A boolean is the lowest bit of its byte.
  function ReadKey(b: bytes): (k: Key)
    requires |b| == KEY_SIZE
    ensures k.Valid()
  {
    Widths();
    Key(LeNat(b[..8]), b[8] % 2 == 1, b[9..])
  }

  // The 41 bytes of a key: the amount least significant byte first, one byte for the parity, the rest.
  ghost predicate KeyAt(b: bytes, k: Key) {
    |b| == 41 && LeNat(b[..8]) == k.amount && (b[8] % 2 == 1 <==> k.parity) && b[9..] == k.pubkey
  }

  lemma KeyLayout(k: Key, b: bytes)
    ensures k.Valid() ==> KeyAt(KeyBytes(k), k) && KeyBytes(k)[8] <= 1
    ensures |b| == 41 ==> KeyAt(b, ReadKey(b))
  {
    if k.Valid() {
      Widths();
      LeNatOfLeBytes(k.amount, 8);
      assert KeyBytes(k)[..8] == LeBytes(k.amount, 8);
    }
  }

  lemma KeyRoundTrip(k: Key)
    requires k.Valid()
    ensures ReadKey(KeyBytes(k)) == k
  {
    Widths();
    LeNatOfLeBytes(k.amount, 8);
    assert KeyBytes(k)[..8] == LeBytes(k.amount, 8);
  }

  lemma KeyRoundTripBack(b: bytes)
    requires |b| == KEY_SIZE
    ensures KeyBytes(ReadKey(b)) == b <==> b[8] <= 1
  {
    LeBytesOfLeNat(b[..8]);
    var printed := KeyBytes(ReadKey(b));
    assert printed[8] == b[8] % 2;
    assert b == b[..8] + [b[8]] + b[9..];
  }

  ghost function Raw(keys: seq<Key>): bytes
    requires AllValid(keys)
  {
    if keys == [] then [] else Raw(keys[..|keys| - 1]) + KeyBytes(keys[|keys| - 1])
  }

  lemma {:induction false} RawLength(keys: seq<Key>)
    requires AllValid(keys)
    ensures |Raw(keys)| == KEY_SIZE * |keys|
  {
    if keys != [] {
      RawLength(keys[..|keys| - 1]);
    }
  }

  lemma {:induction false} RawAt(keys: seq<Key>, i: nat)
    requires AllValid(keys) && i < |keys|
    ensures KEY_SIZE * i + KEY_SIZE <= |Raw(keys)|
    ensures Raw(keys)[KEY_SIZE * i..KEY_SIZE * i + KEY_SIZE] == KeyBytes(keys[i])
    decreases |keys|
  {
    hide KeyBytes;
    var front := keys[..|keys| - 1];
    RawLength(front);
    RawLength(keys);
    if i < |front| {
      RawAt(front, i);
      assert Raw(keys)[KEY_SIZE * i..KEY_SIZE * i + KEY_SIZE] == Raw(front)[KEY_SIZE * i..KEY_SIZE * i + KEY_SIZE];
    }
  }

  // Each key stands in its own 41 bytes.
  lemma WireLayout(keys: seq<Key>, i: nat)
    requires AllValid(keys) && i < |keys|
    ensures |Raw(keys)| == 41 * |keys| && KeyAt(Raw(keys)[41 * i..41 * i + 41], keys[i])
  {
    hide KeyAt, KeyBytes;
    RawLength(keys);
    RawAt(keys, i);
    KeyLayout(keys[i], []);
  }

  function Decode(raw: bytes): (r: Option<seq<Key>>)
    ensures r.Some? <==> |raw| == KEY_SIZE * NUM_KEYS
  {
    if |raw| != KEY_SIZE * NUM_KEYS then None
    else Some(seq(NUM_KEYS, i requires 0 <= i < NUM_KEYS => ReadKey(raw[KEY_SIZE * i..KEY_SIZE * i + KEY_SIZE])))
  }

  // Any 64 keys survive the wire.
  lemma WireRoundTrip(keys: seq<Key>)
    requires |keys| == NUM_KEYS && AllValid(keys)
    ensures Decode(Raw(keys)) == Some(keys)
  {
    hide KeyBytes, ReadKey, Raw;
    RawLength(keys);
    forall i | 0 <= i < NUM_KEYS
      ensures Decode(Raw(keys)).value[i] == keys[i]
    {
      RawAt(keys, i);
      KeyRoundTrip(keys[i]);
    }
    assert Decode(Raw(keys)).value == keys;
  }

  // Any 2624 bytes are keys, and print back as they were exactly when each parity byte is 0 or 1.
  lemma WireRoundTripBack(raw: bytes)
    requires |raw| == KEY_SIZE * NUM_KEYS
    ensures var keys := Decode(raw).value;
            && AllValid(keys)
            && (Raw(keys) == raw <==> forall i :: 0 <= i < NUM_KEYS ==> raw[KEY_SIZE * i + 8] <= 1)
  {
    hide KeyBytes, ReadKey, Raw;
    var keys := Decode(raw).value;
    RawLength(keys);
    forall i | 0 <= i < NUM_KEYS
      ensures Raw(keys)[KEY_SIZE * i..KEY_SIZE * i + KEY_SIZE] == raw[KEY_SIZE * i..KEY_SIZE * i + KEY_SIZE] <==>
              raw[KEY_SIZE * i + 8] <= 1
    {
      var b := raw[KEY_SIZE * i..KEY_SIZE * i + KEY_SIZE];
      RawAt(keys, i);
      KeyRoundTripBack(b);
      assert b[8] == raw[KEY_SIZE * i + 8];
    }
    SlicesAgree(Raw(keys), raw);
  }

  // Strings of whole keys agree when every key does.
  lemma SlicesAgree(a: bytes, b: bytes)
    requires |a| == |b| == KEY_SIZE * NUM_KEYS
    ensures a == b <==>
            forall i :: 0 <= i < NUM_KEYS ==>
                   a[KEY_SIZE * i..KEY_SIZE * i + KEY_SIZE] == b[KEY_SIZE * i..KEY_SIZE * i + KEY_SIZE]
  {
    if forall i :: 0 <= i < NUM_KEYS ==>
       a[KEY_SIZE * i..KEY_SIZE * i + KEY_SIZE] == b[KEY_SIZE * i..KEY_SIZE * i + KEY_SIZE] {
      forall j | 0 <= j < |a| ensures a[j] == b[j] {
        var i, r := j / KEY_SIZE, j % KEY_SIZE;
        assert a[KEY_SIZE * i..KEY_SIZE * i + KEY_SIZE][r] == b[KEY_SIZE * i..KEY_SIZE * i + KEY_SIZE][r];
      }
    }
  }

  // `TryFrom<&[Sv2SigningKey; 64]>`: the buffer, key by key.
  method EncodeKeys(keys: seq<Key>) returns (raw: bytes)
    requires |keys| == NUM_KEYS && AllValid(keys)
    ensures raw == Raw(keys) && Decode(raw) == Some(keys)
  {
    var buffer := new byte[2624](_ => 0);
    for i := 0 to NUM_KEYS
      invariant buffer[..KEY_SIZE * i] == Raw(keys[..i])
    {
      WriteKey(buffer, KEY_SIZE * i, KeyBytes(keys[i]));
      assert keys[..i + 1][..i] == keys[..i];
      assert buffer[..KEY_SIZE * (i + 1)] == buffer[..KEY_SIZE * i] + KeyBytes(keys[i]);
    }
    raw := buffer[..];
    assert keys[..NUM_KEYS] == keys;
    WireRoundTrip(keys);
  }

  method WriteKey(buffer: array<byte>, start: nat, b: bytes)
    requires start + |b| <= buffer.Length
    modifies buffer
    ensures buffer[..start] == old(buffer[..start]) && buffer[start..start + |b|] == b
  {
    forall i | 0 <= i < |b| {
      buffer[start + i] := b[i];
    }
  }

  // `TryFrom<Sv2KeySetWire>`: chunk by chunk.
  method DecodeKeys(raw: bytes) returns (keys: Option<seq<Key>>)
    ensures keys == Decode(raw)
  {
    if |raw| != KEY_SIZE * NUM_KEYS {
      return None;
    }
    var list := [];
    for i := 0 to NUM_KEYS
      invariant list == Decode(raw).value[..i]
    {
      list := list + [ReadKey(raw[KEY_SIZE * i..KEY_SIZE * i + KEY_SIZE])];
    }
    assert list == Decode(raw).value;
    keys := Some(list);
  }

  // The ordered map of the CDK, as the list of its entries.
  datatype Entry = Entry(amount: nat, point: bytes)

  ghost predicate Ascending(t: seq<Entry>) {
    forall i, j :: 0 <= i < j < |t| ==> t[i].amount < t[j].amount
  }

  predicate Has(t: seq<Entry>, amount: nat) {
    t != [] && (t[0].amount == amount || Has(t[1..], amount))
  }

  // `BTreeMap::insert`
  function Insert(t: seq<Entry>, e: Entry): (r: seq<Entry>) {
    if t == [] || e.amount < t[0].amount then [e] + t
    else if e.amount == t[0].amount then [e] + t[1..]
    else [t[0]] + Insert(t[1..], e)
  }

  lemma {:induction false} HasAt(t: seq<Entry>, amount: nat)
    ensures Has(t, amount) <==> exists i :: 0 <= i < |t| && t[i].amount == amount
  {
    if t != [] {
      HasAt(t[1..], amount);
      if Has(t[1..], amount) {
        var i :| 0 <= i < |t[1..]| && t[1..][i].amount == amount;
        assert t[i + 1].amount == amount;
      }
    }
  }

  lemma {:induction false} InsertKeeps(t: seq<Entry>, e: Entry)
    requires Ascending(t)
    ensures Ascending(Insert(t, e))
    ensures forall a :: Has(Insert(t, e), a) <==> a == e.amount || Has(t, a)
    ensures |Insert(t, e)| == |t| + if Has(t, e.amount) then 0 else 1
  {
    if t == [] || e.amount < t[0].amount {
      var r := [e] + t;
      assert r[1..] == t;
      HasAt(t, e.amount);
    } else if e.amount == t[0].amount {
      assert ([e] + t[1..])[1..] == t[1..];
    } else {
      var rest := Insert(t[1..], e);
      InsertKeeps(t[1..], e);
      var r := [t[0]] + rest;
      assert r[1..] == rest;
      forall j | 0 <= j < |rest| ensures t[0].amount < rest[j].amount {
        HasAt(rest, rest[j].amount);
        HasAt(t[1..], rest[j].amount);
      }
    }
  }

  // Inserting past the end appends.
  lemma {:induction false} InsertLast(t: seq<Entry>, e: Entry)
    requires forall i :: 0 <= i < |t| ==> t[i].amount < e.amount
    ensures Insert(t, e) == t + [e]
  {
    if t != [] {
      InsertLast(t[1..], e);
      assert t == [t[0]] + t[1..];
    }
  }

  // The CDK's point and id parsers: what they accept is not known here.
  const ON_CURVE: bytes -> bool
  const KNOWN_ID: bytes -> bool

  predicate ValidPoint(p: bytes) {
    |p| == 33 && (p[0] == 2 || p[0] == 3) && ON_CURVE(p)
  }

  function EntryOf(k: Key): Entry {
    Entry(k.amount, [if k.parity then 3 else 2] + k.pubkey)
  }

  function KeyOf(e: Entry): Key
    requires |e.point| == 33
  {
    Key(e.amount, e.point[0] == 3, e.point[1..])
  }

  ghost predicate GoodEntry(e: Entry) {
    e.amount < U64 && |e.point| == 33 && ValidPoint(e.point)
  }

  ghost predicate GoodTree(t: seq<Entry>) {
    forall i :: 0 <= i < |t| ==> GoodEntry(t[i])
  }

  ghost function KeysOf(t: seq<Entry>): seq<Key>
    requires GoodTree(t)
  {
    seq(|t|, i requires 0 <= i < |t| => KeyOf(t[i]))
  }

  // A compressed point is the key's x behind 3 for an odd and 2 for an even one.
  ghost predicate PointOf(k: Key, e: Entry) {
    e.amount == k.amount && |e.point| == 33 && e.point[0] == (if k.parity then 3 else 2) && e.point[1..] == k.pubkey
  }

  lemma EntryIsPoint(k: Key, e: Entry)
    ensures |k.pubkey| == 32 ==> (PointOf(k, e) <==> e == EntryOf(k))
    ensures ValidPoint(e.point) ==> PointOf(KeyOf(e), e)
  {
    if PointOf(k, e) { assert e.point == [e.point[0]] + e.point[1..]; }
  }

  // `IdPanics` is not an error of the code but a slice out of range.
  datatype Error = InvalidKeysetId | InvalidKeyCount(count: nat) | InvalidPublicKey(index: nat) | IdPanics

  datatype Result<+T> = Ok(value: T) | Err(error: Error)

  // `signing_keys_to_cdk`
  function ToCdk(keys: seq<Key>): Result<seq<Entry>> {
    if keys == [] then Ok([])
    else
      match ToCdk(keys[..|keys| - 1])
      case Err(e) => Err(e)
      case Ok(t) =>
        var e := EntryOf(keys[|keys| - 1]);
        if ValidPoint(e.point) then Ok(Insert(t, e)) else Err(InvalidPublicKey(|keys| - 1))
  }

  ghost predicate GoodKeys(keys: seq<Key>) {
    AllValid(keys) && forall i :: 0 <= i < |keys| ==> ValidPoint(EntryOf(keys[i]).point)
  }

  ghost predicate Distinct(keys: seq<Key>) {
    forall i, j :: 0 <= i < j < |keys| ==> keys[i].amount != keys[j].amount
  }

  lemma {:induction false} InsertGood(t: seq<Entry>, e: Entry)
    requires GoodTree(t) && GoodEntry(e)
    ensures GoodTree(Insert(t, e))
  {
    hide GoodEntry;
    if t != [] && e.amount > t[0].amount {
      InsertGood(t[1..], e);
    }
  }

  lemma KeysOfCons(e: Entry, t: seq<Entry>)
    requires GoodEntry(e) && GoodTree(t)
    ensures GoodTree([e] + t) && KeysOf([e] + t) == [KeyOf(e)] + KeysOf(t)
  {
    hide ValidPoint, KeyOf;
  }

  lemma {:induction false} InsertAdds(t: seq<Entry>, e: Entry)
    requires GoodTree(t) && GoodEntry(e) && !Has(t, e.amount)
    ensures GoodTree(Insert(t, e))
    ensures multiset(KeysOf(Insert(t, e))) == multiset(KeysOf(t)) + multiset{KeyOf(e)}
  {
    hide ValidPoint, KeyOf, KeysOf;
    if t == [] || e.amount < t[0].amount {
      KeysOfCons(e, t);
    } else {
      assert GoodEntry(t[0]);
      InsertAdds(t[1..], e);
      KeysOfCons(t[0], Insert(t[1..], e));
      KeysOfCons(t[0], t[1..]);
      assert t == [t[0]] + t[1..];
    }
  }

  // What the map holds: every key once when the amounts are distinct, and fewer when they are not.
  lemma {:induction false} MapHolds(keys: seq<Key>)
    requires GoodKeys(keys)
    ensures ToCdk(keys).Ok?
    ensures var t := ToCdk(keys).value;
            && Ascending(t) && GoodTree(t) && |t| <= |keys| && (|t| == |keys| <==> Distinct(keys))
            && (forall i :: 0 <= i < |keys| ==> Has(t, keys[i].amount))
            && (forall a :: Has(t, a) ==> exists i :: 0 <= i < |keys| && keys[i].amount == a)
            && (Distinct(keys) ==> multiset(KeysOf(t)) == multiset(keys))
    decreases |keys|
  {
    hide ValidPoint, EntryOf, KeysOf;
    if keys == [] {
      EmptyKeys();
    } else {
      var front, k := keys[..|keys| - 1], keys[|keys| - 1];
      MapHolds(front);
      var t := ToCdk(front).value;
      EntryOfGood(k);
      InsertKeeps(t, EntryOf(k));
      InsertGood(t, EntryOf(k));
      if !Has(t, k.amount) { InsertAdds(t, EntryOf(k)); }
      assert keys == front + [k];
      assert Distinct(keys) <==> Distinct(front) && !Has(t, k.amount) by { DistinctStep(front, k, t); }
    }
  }

  // The last key of its amount, for a later one replaces an earlier one.
  ghost predicate LastOf(keys: seq<Key>, i: nat) {
    i < |keys| && forall j :: i < j < |keys| ==> keys[j].amount != keys[i].amount
  }

  lemma {:induction false} InsertHolds(t: seq<Entry>, e: Entry, x: Entry)
    requires Ascending(t)
    ensures x in Insert(t, e) <==> x == e || (x in t && x.amount != e.amount)
  {
    if t != [] {
      assert t == [t[0]] + t[1..];
      if e.amount > t[0].amount { InsertHolds(t[1..], e, x); }
    }
  }

  ghost predicate LastPoint(keys: seq<Key>, x: Entry) {
    exists i: nat :: LastOf(keys, i) && PointOf(keys[i], x)
  }

  // The map holds exactly the points of those keys.
  lemma {:induction false} MapExact(keys: seq<Key>, x: Entry)
    requires GoodKeys(keys)
    ensures ToCdk(keys).Ok? && (x in ToCdk(keys).value <==> LastPoint(keys, x))
    decreases |keys|
  {
    hide LastPoint, PointOf, Insert, Ascending, GoodKeys, EntryOf;
    if keys == [] {
      NoPoint(x);
    } else {
      var front, k := keys[..|keys| - 1], keys[|keys| - 1];
      GoodFront(keys);
      MapHolds(front);
      MapExact(front, x);
      InsertHolds(ToCdk(front).value, EntryOf(k), x);
      EntryIsPoint(k, x);
      LastGrows(front, k, x);
      assert keys == front + [k];
    }
  }

  lemma NoPoint(x: Entry)
    ensures ToCdk([]) == Ok([]) && !LastPoint([], x)
  {
  }

  lemma GoodFront(keys: seq<Key>)
    requires GoodKeys(keys) && keys != []
    ensures var front, k := keys[..|keys| - 1], keys[|keys| - 1];
            GoodKeys(front) && |k.pubkey| == 32 && ValidPoint(EntryOf(k).point) && EntryOf(k).amount == k.amount
  {
  }

  lemma LastGrows(front: seq<Key>, k: Key, x: Entry)
    ensures LastPoint(front + [k], x) <==> PointOf(k, x) || (x.amount != k.amount && LastPoint(front, x))
  {
    var keys := front + [k];
    assert keys[|front|] == k && LastOf(keys, |front|);
    assert forall j :: 0 <= j < |front| ==> keys[j] == front[j];
    if LastPoint(keys, x) {
      var i: nat :| LastOf(keys, i) && PointOf(keys[i], x);
      if i < |front| { assert LastOf(front, i); }
    }
    if x.amount != k.amount && LastPoint(front, x) {
      var i: nat :| LastOf(front, i) && PointOf(front[i], x);
      assert LastOf(keys, i);
    }
  }

  // The first key that is no point is the one complained of.
  lemma {:induction false} FirstBadKey(keys: seq<Key>)
    ensures ToCdk(keys).Err? <==> exists i ::
            0 <= i < |keys| && !ValidPoint([if keys[i].parity then 3 else 2] + keys[i].pubkey)
    ensures ToCdk(keys).Err? ==>
              && ToCdk(keys).error.InvalidPublicKey?
              && var i := ToCdk(keys).error.index;
                 && i < |keys| && !ValidPoint([if keys[i].parity then 3 else 2] + keys[i].pubkey)
                 && forall j :: 0 <= j < i ==> ValidPoint([if keys[j].parity then 3 else 2] + keys[j].pubkey)
  {
    hide ValidPoint;
    if keys != [] {
      FirstBadKey(keys[..|keys| - 1]);
    }
  }

  lemma EmptyKeys()
    ensures KeysOf([]) == []
  {
  }

  lemma EntryOfGood(k: Key)
    requires k.Valid() && ValidPoint(EntryOf(k).point)
    ensures EntryOf(k).amount == k.amount && GoodEntry(EntryOf(k)) && KeyOf(EntryOf(k)) == k
  {
  }

  lemma DistinctStep(front: seq<Key>, k: Key, t: seq<Entry>)
    requires forall i :: 0 <= i < |front| ==> Has(t, front[i].amount)
    requires forall a :: Has(t, a) ==> exists i :: 0 <= i < |front| && front[i].amount == a
    ensures Distinct(front + [k]) <==> Distinct(front) && !Has(t, k.amount)
  {
    var keys := front + [k];
    if Distinct(keys) {
      assert forall i :: 0 <= i < |front| ==> keys[i] == front[i] && keys[i].amount != keys[|front|].amount;
    }
  }

  // `signing_keys_from_cdk`, over the map in its order
  method SigningKeysFromCdk(t: seq<Entry>) returns (r: Result<seq<Key>>)
    requires GoodTree(t)
    ensures r == FromCdk(t)
    ensures |t| != 64 ==> r == Err(InvalidKeyCount(|t|))
    ensures |t| == 64 ==> r.Ok? && |r.value| == 64 && forall i :: 0 <= i < 64 ==> PointOf(r.value[i], t[i])
  {
    var keys := [];
    for i := 0 to |t|
      invariant keys == KeysOf(t)[..i]
    {
      keys := keys + [KeyOf(t[i])];
    }
    assert keys == KeysOf(t);
    if |keys| != NUM_KEYS {
      return Err(InvalidKeyCount(|keys|));
    }
    r := Ok(keys);
    forall i | 0 <= i < 64 ensures PointOf(keys[i], t[i]) {
      assert GoodEntry(t[i]);
      EntryIsPoint(keys[i], t[i]);
    }
  }

  ghost function FromCdk(t: seq<Entry>): Result<seq<Key>>
    requires GoodTree(t)
  {
    if |t| != NUM_KEYS then Err(InvalidKeyCount(|t|)) else Ok(KeysOf(t))
  }

  method SigningKeysToCdk(keys: seq<Key>) returns (r: Result<seq<Entry>>)
    ensures r == ToCdk(keys)
    ensures GoodKeys(keys) ==>
              && r.Ok? && Ascending(r.value)
              && forall e :: e in r.value <==> LastPoint(keys, e)
  {
    var entries := [];
    for i := 0 to |keys|
      invariant ToCdk(keys[..i]) == Ok(entries)
    {
      var e := EntryOf(keys[i]);
      assert keys[..i + 1][..i] == keys[..i];
      if !ValidPoint(e.point) {
        FailsFrom(keys, i + 1);
        return Err(InvalidPublicKey(i));
      }
      entries := Insert(entries, e);
    }
    assert keys[..|keys|] == keys;
    r := Ok(entries);
    if GoodKeys(keys) { MapExactly(keys); }
  }

  lemma MapExactly(keys: seq<Key>)
    requires GoodKeys(keys)
    ensures ToCdk(keys).Ok? && Ascending(ToCdk(keys).value)
    ensures forall e :: e in ToCdk(keys).value <==> LastPoint(keys, e)
  {
    hide GoodKeys, LastPoint;
    MapHolds(keys);
    forall e ensures e in ToCdk(keys).value <==> LastPoint(keys, e) {
      MapExact(keys, e);
    }
  }

  lemma {:induction false} FailsFrom(keys: seq<Key>, n: nat)
    requires n <= |keys| && ToCdk(keys[..n]).Err?
    ensures ToCdk(keys) == ToCdk(keys[..n])
    decreases |keys|
  {
    if n == |keys| {
      assert keys[..n] == keys;
    } else {
      assert keys[..|keys| - 1][..n] == keys[..n];
      FailsFrom(keys[..|keys| - 1], n);
    }
  }

  datatype CdkKeySet = CdkKeySet(id: bytes, unit: string, keys: seq<Entry>, finalExpiry: Option<nat>) {
    ghost predicate Valid() {
      Ascending(keys) && GoodTree(keys)
    }
  }

  datatype Sv2KeySet = Sv2KeySet(id: nat, keys: seq<Key>) {
    ghost predicate Valid() {
      id < U64 && |keys| == NUM_KEYS && GoodKeys(keys) && KNOWN_ID(BeBytes(id, 8))
    }
  }

  // An id on its way to 64 bits: zeros are added to a short one.
  function PaddedId(id: bytes): (padded: bytes)
    requires |id| <= 8
    ensures |padded| == 8
  {
    id + Zeros(8 - |id|)
  }

  // `TryFrom<KeySet> for Sv2KeySet`; an id of more than eight bytes does not fit its array.
  ghost function ToSv2(c: CdkKeySet): Result<Sv2KeySet>
    requires GoodTree(c.keys)
  {
    match FromCdk(c.keys)
    case Err(e) => Err(e)
    case Ok(keys) => if |c.id| > 8 then Err(IdPanics) else Ok(Sv2KeySet(BeNat(PaddedId(c.id)), keys))
  }

  // `TryFrom<Sv2KeySet> for KeySet`
  function ToCdkKeySet(s: Sv2KeySet): Result<CdkKeySet> {
    if !KNOWN_ID(BeBytes(s.id, 8)) then Err(InvalidKeysetId)
    else
      match ToCdk(s.keys)
      case Err(e) => Err(e)
      case Ok(t) => Ok(CdkKeySet(BeBytes(s.id, 8), "HASH", t, None))
  }

  lemma {:induction false} MapOfMap(t: seq<Entry>)
    requires Ascending(t) && GoodTree(t)
    ensures ToCdk(KeysOf(t)) == Ok(t)
    decreases |t|
  {
    hide ValidPoint;
    if t != [] {
      var front, e := t[..|t| - 1], t[|t| - 1];
      MapOfMap(front);
      assert KeysOf(t)[..|t| - 1] == KeysOf(front);
      assert GoodEntry(e);
      EntryOfKey(e);
      InsertLast(front, e);
      assert t == front + [e];
    }
  }

  lemma EntryOfKey(e: Entry)
    requires ValidPoint(e.point)
    ensures EntryOf(KeyOf(e)) == e
  {
    assert e.point == [e.point[0]] + e.point[1..];
  }

  // A CDK keyset of 64 entries comes back with its map, and with its id if that is one of the eight
  // bytes that the CDK knows; whole exactly when it also was in the unit the code writes and had no
  // expiry. Any other count is refused, and a longer id panics.
  lemma CdkRoundTrip(c: CdkKeySet)
    requires c.Valid()
    ensures |c.keys| != NUM_KEYS ==> ToSv2(c) == Err(InvalidKeyCount(|c.keys|))
    ensures |c.keys| == NUM_KEYS && |c.id| > 8 ==> ToSv2(c) == Err(IdPanics)
    ensures |c.keys| == NUM_KEYS && |c.id| <= 8 ==>
              && ToSv2(c).Ok? && BeBytes(ToSv2(c).value.id, 8) == c.id + Zeros(8 - |c.id|)
              && var back, id := ToCdkKeySet(ToSv2(c).value), PaddedId(c.id);
                 && back == (if KNOWN_ID(id) then Ok(c.(id := id, unit := "HASH", finalExpiry := None))
                             else Err(InvalidKeysetId))
                 && (back == Ok(c) <==> |c.id| == 8 && KNOWN_ID(c.id) && c.unit == "HASH" && c.finalExpiry == None)
  {
    MapOfMap(c.keys);
    if |c.id| <= 8 {
      BeBytesOfBeNat(PaddedId(c.id));
      assert |c.id| == 8 ==> PaddedId(c.id) == c.id;
    }
  }

  // The other way round: sorted by amount when the amounts are distinct, refused for its count when
  // they are not.
  lemma Sv2RoundTrip(s: Sv2KeySet)
    requires s.Valid()
    ensures var c := ToCdkKeySet(s);
            && c.Ok? && c.value.Valid() && |c.value.id| == 8
            && var back := ToSv2(c.value);
               && (Distinct(s.keys) ==>
                     && back.Ok? && back.value.id == s.id && multiset(back.value.keys) == multiset(s.keys)
                     && forall i, j :: 0 <= i < j < NUM_KEYS ==> back.value.keys[i].amount < back.value.keys[j].amount)
               && (!Distinct(s.keys) ==> |c.value.keys| < NUM_KEYS && back == Err(InvalidKeyCount(|c.value.keys|)))
  {
    hide BeNat, BeBytes, GoodKeys;
    MapHolds(s.keys);
    Widths();
    BeNatOfBeBytes(s.id, 8);
    assert PaddedId(BeBytes(s.id, 8)) == BeBytes(s.id, 8);
  }

  // The id computed from the keys by the CDK, which is not known here.
  const V1_FROM_KEYS: seq<Entry> -> nat

  function CalculateKeysetId(keys: seq<Key>): nat {
    match ToCdk(keys)
    case Ok(t) => V1_FROM_KEYS(t)
    case Err(_) => 0
  }

  datatype Wire = Wire(id: nat, keys: bytes)

  // `From<Sv2KeySet> for Sv2KeySetWire`: the id is computed afresh.
  ghost function ToWire(s: Sv2KeySet): Wire
    requires AllValid(s.keys)
  {
    Wire(CalculateKeysetId(s.keys), Raw(s.keys))
  }

  function FromWire(w: Wire): Option<Sv2KeySet> {
    match Decode(w.keys)
    case None => None
    case Some(keys) => Some(Sv2KeySet(w.id, keys))
  }

  // A keyset comes back with its keys, and with its id exactly when that was the computed one.
  lemma KeysetWireRoundTrip(s: Sv2KeySet)
    requires |s.keys| == NUM_KEYS && AllValid(s.keys)
    ensures FromWire(ToWire(s)).Some? && FromWire(ToWire(s)).value.keys == s.keys
    ensures FromWire(ToWire(s)) == Some(s) <==> s.id == CalculateKeysetId(s.keys)
    ensures GoodKeys(s.keys) <==> ToCdk(s.keys).Ok?
    ensures ToWire(s).id == if GoodKeys(s.keys) then V1_FROM_KEYS(ToCdk(s.keys).value) else 0
  {
    FirstBadKey(s.keys);
    WireRoundTrip(s.keys);
  }
}
