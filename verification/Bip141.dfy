/** Stripping BIP 141 data from a coinbase split around its extranonce, and what that does to its id. */
module Bip141 {
  import opened Bytes
  import opened Merkle
  import opened Bitcoin

  const MAX_EXTRANONCE_LEN: nat := 32
  const MARKER_FLAG_OFFSET: nat := 4
  const MARKER_FLAG_LEN: nat := 2
  const WITNESS_COUNT_LEN: nat := 1
  const WITNESS_LEN_LEN: nat := 1
  const WITNESS_DATA_LEN: nat := 32
  const LOCKTIME_LEN: nat := 4
  const WITNESS_LEN: nat := WITNESS_COUNT_LEN + WITNESS_LEN_LEN + WITNESS_DATA_LEN

  datatype Part = Version | Inputs | Outputs | LockTime

  // A slice out of range is a panic.
  datatype Strip =
    | Unreadable(part: Part)
    | AlreadyStripped
    | Stripped(prefix: bytes, suffix: bytes)
    | Panics

  // What was parsed is valid, so that it has an id.

  lemma ReadSizeBound(b: bytes)
    ensures ReadSize(b).Some? ==> ReadSize(b).value.0 < U64
  {
    hide LeNat;
    Widths();
  }

  lemma ReadInValid(b: bytes)
    ensures ReadIn(b).Some? ==> ValidIn(ReadIn(b).value.0) && ReadIn(b).value.0.stack == []
  {
    hide ReadSize;
    if |b| >= 36 {
      ReadSizeBound(b[36..]);
    }
  }

  lemma ReadOutValid(b: bytes)
    ensures ReadOut(b).Some? ==> ValidOut(ReadOut(b).value.0)
  {
    hide ReadSize;
    if |b| >= 8 {
      ReadSizeBound(b[8..]);
    }
  }

  ghost predicate AllIns(inputs: seq<TxIn>) {
    forall k :: 0 <= k < |inputs| ==> ValidIn(inputs[k])
  }

  lemma {:induction false} ReadInsValid(b: bytes, n: nat)
    ensures var r := ReadIns(b, n);
            r.Some? ==> |r.value.0| == n && AllIns(r.value.0) && NoWitness(r.value.0)
    decreases n
  {
    hide ReadIn, ValidIn;
    if n > 0 {
      ReadInValid(b);
      match ReadIn(b)
      case None =>
      case Some((_, b1)) => ReadInsValid(b1, n - 1);
    }
  }

  lemma {:induction false} ReadOutsValid(b: bytes, n: nat)
    ensures var r := ReadOuts(b, n);
            r.Some? ==> |r.value.0| == n && forall k :: 0 <= k < n ==> ValidOut(r.value.0[k])
    decreases n
  {
    hide ReadOut, ValidOut;
    if n > 0 {
      ReadOutValid(b);
      match ReadOut(b)
      case None =>
      case Some((_, b1)) => ReadOutsValid(b1, n - 1);
    }
  }

  lemma ReadInputsValid(b: bytes)
    ensures var r := ReadInputs(b);
            r.Some? ==> |r.value.0| < U64 && AllIns(r.value.0) && NoWitness(r.value.0)
    ensures b != [] && b[0] != 0 && ReadInputs(b).Some? ==> ReadInputs(b).value.0 != []
  {
    hide ReadIns, AllIns, NoWitness, LeNat;
    ReadSizeBound(b);
    match ReadSize(b)
    case None =>
    case Some((n, rest)) => ReadInsValid(rest, n);
  }

  lemma ReadOutputsValid(b: bytes)
    ensures var r := ReadOutputs(b);
            r.Some? ==> |r.value.0| < U64 && forall k :: 0 <= k < |r.value.0| ==> ValidOut(r.value.0[k])
  {
    hide ReadOuts, ReadSize, ValidOut;
    ReadSizeBound(b);
    match ReadSize(b)
    case None =>
    case Some((n, rest)) => ReadOutsValid(rest, n);
  }

  // `try_strip_bip141`
  ghost function TryStrip(prefix: bytes, suffix: bytes): Strip {
    match Take(prefix + Zeros(MAX_EXTRANONCE_LEN) + suffix, 4)
    case None => Unreadable(Version)
    case Some((version, b1)) =>
      match ReadInputs(b1)
      case None => Unreadable(Inputs)
      case Some((inputs, b2)) =>
        match ReadOutputs(b2)
        case None => Unreadable(Outputs)
        case Some((outputs, b3)) =>
          match Take(b3, 4)
          case None => Unreadable(LockTime)
          case Some((lockTime, _)) =>
            ReadInputsValid(b1);
            ReadOutputsValid(b2);
            var coinbase := Tx(version, inputs, outputs, lockTime);
            if Txid(coinbase) == Wtxid(coinbase) then AlreadyStripped else Cut(prefix, suffix)
  }

  // Takes out marker and flag, and the witness in front of the lock time.
  function Cut(prefix: bytes, suffix: bytes): Strip {
    if |prefix| < MARKER_FLAG_OFFSET + MARKER_FLAG_LEN || |suffix| < WITNESS_LEN + LOCKTIME_LEN then Panics
    else
      var at := |suffix| - LOCKTIME_LEN;
      Stripped(prefix[..MARKER_FLAG_OFFSET] + prefix[MARKER_FLAG_OFFSET + MARKER_FLAG_LEN..],
               suffix[..at - WITNESS_LEN] + suffix[at..])
  }

  // Whatever comes in: nothing is cut unless the byte after the version is the marker.
  lemma NeverStripsUnmarked(prefix: bytes, suffix: bytes)
    requires |prefix| > MARKER_FLAG_OFFSET && prefix[MARKER_FLAG_OFFSET] != 0
    ensures TryStrip(prefix, suffix).AlreadyStripped? || TryStrip(prefix, suffix).Unreadable?
  {
    hide ReadInputs, ReadOutputs, Legacy, Extended, DHash;
    var b1 := (prefix + Zeros(MAX_EXTRANONCE_LEN) + suffix)[4..];
    assert b1[0] == prefix[4];
    ReadInputsValid(b1);
  }

  // A coinbase: one input, a witness of one 32-byte item, the script open where the extranonce goes.
  datatype Coinbase = Coinbase(
    version: bytes, prevout: bytes, head: bytes, tail: bytes, sequence: bytes,
    outputs: seq<TxOut>, reserved: bytes, lockTime: bytes)
  {
    predicate Fits(n: nat) {
      |head| + n + |tail| < U64
    }

    ghost predicate Valid() {
      && |version| == 4 && |prevout| == 36 && |sequence| == 4
      && |reserved| == WITNESS_DATA_LEN && |lockTime| == 4
      && |outputs| < U64 && (forall k :: 0 <= k < |outputs| ==> ValidOut(outputs[k]))
      // it spends nothing: the hash it names is all zeros
      && prevout[..32] == Zeros(32)
    }

    function Transaction(extranonce: bytes): Tx {
      Tx(version, [TxIn(prevout, head + extranonce + tail, sequence, [reserved])], outputs, lockTime)
    }

    // The split of the extended form, for an extranonce of `n` bytes.
    function Prefix(n: nat): bytes
      requires Fits(n)
    {
      version + [0, 1] + Opening(n)
    }

    ghost function Suffix(): bytes
      requires Valid()
    {
      Closing() + (Size(1) + Sized(reserved)) + lockTime
    }

    // The split of the legacy form.
    function PlainPrefix(n: nat): bytes
      requires Fits(n)
    {
      version + Opening(n)
    }

    ghost function PlainSuffix(): bytes
      requires Valid()
    {
      Closing() + lockTime
    }

    function Opening(n: nat): bytes
      requires Fits(n)
    {
      Size(1) + prevout + Size(|head| + n + |tail|) + head
    }

    ghost function Closing(): bytes
      requires Valid()
    {
      tail + sequence + (Size(|outputs|) + PrintOuts(outputs))
    }
  }

  lemma CoinbaseValid(c: Coinbase, extranonce: bytes)
    requires c.Valid() && c.Fits(|extranonce|)
    ensures ValidTx(c.Transaction(extranonce))
  {
    assert ValidIn(c.Transaction(extranonce).inputs[0]);
  }

  lemma OneInput(i: TxIn)
    requires ValidIn(i)
    ensures PrintIns([i]) == PrintIn(i)
    ensures PrintWitnesses([i]) == Size(|i.stack|) + PrintItems(i.stack)
  {
    hide PrintIn, PrintItems;
    assert [i][1..] == [];
    assert PrintIn(i) + [] == PrintIn(i);
    var w := Size(|i.stack|) + PrintItems(i.stack);
    assert w + [] == w;
  }

  // Opening, extranonce and closing make up the inputs and outputs.
  lemma Assemble(c: Coinbase, extranonce: bytes)
    requires c.Valid() && c.Fits(|extranonce|)
    ensures ValidTx(c.Transaction(extranonce))
    ensures c.Opening(|extranonce|) + extranonce + c.Closing() == Core(c.Transaction(extranonce))
  {
    hide Size, PrintOuts;
    CoinbaseValid(c, extranonce);
    var i := c.Transaction(extranonce).inputs[0];
    OneInput(i);
    var outs := Size(|c.outputs|) + PrintOuts(c.outputs);
    var size := Size(|i.script|);
    calc {
      c.Opening(|extranonce|) + extranonce + c.Closing();
      (Size(1) + c.prevout + size + c.head) + extranonce + (c.tail + c.sequence + outs);
      (Size(1) + (c.prevout + (size + (c.head + extranonce + c.tail)) + c.sequence)) + outs;
      (Size(1) + PrintIn(i)) + outs;
    }
  }

  // The split form of a coinbase is its extended serialization, and the stripped one its legacy
  // serialization, for every extranonce of the length allowed for.
  lemma SplitSerializes(c: Coinbase, extranonce: bytes)
    requires c.Valid() && c.Fits(|extranonce|)
    ensures ValidTx(c.Transaction(extranonce))
    ensures c.Prefix(|extranonce|) + extranonce + c.Suffix() == Extended(c.Transaction(extranonce))
    ensures c.PlainPrefix(|extranonce|) + extranonce + c.PlainSuffix() == Legacy(c.Transaction(extranonce))
  {
    hide Core, Size, Sized;
    Assemble(c, extranonce);
    var tx := c.Transaction(extranonce);
    OneInput(tx.inputs[0]);
    OneItem(c.reserved);
    var opening, closing, w := c.Opening(|extranonce|), c.Closing(), Size(1) + Sized(c.reserved);
    Regroup(c.version + [0, 1], opening, extranonce, closing, w + c.lockTime);
    Regroup(c.version, opening, extranonce, closing, c.lockTime);
    assert c.Suffix() == closing + (w + c.lockTime);
    assert Extended(tx) == (c.version + [0, 1]) + Core(tx) + (w + c.lockTime);
  }

  lemma OneItem(item: bytes)
    requires |item| < U64
    ensures PrintItems([item]) == Sized(item)
  {
    assert [item][1..] == [];
    assert Sized(item) + [] == Sized(item);
  }

  lemma Regroup(a: bytes, b: bytes, c: bytes, d: bytes, e: bytes)
    ensures (a + b) + c + (d + e) == a + (b + c + d) + e
  {
  }

  // What the code mistakes the extended form for: no inputs, and one output of one unit.
  function Phantom(version: bytes): Tx {
    Tx(version, [], [TxOut([1, 0, 0, 0, 0, 0, 0, 0], [])], Zeros(4))
  }

  // Its two ids differ; were they equal, double SHA-256 would collide.
  ghost predicate Distinguishable(version: bytes)
    requires |version| == 4
  {
    assert ValidOut(Phantom(version).outputs[0]);
    Txid(Phantom(version)) != Wtxid(Phantom(version))
  }

  lemma PhantomPrinted()
    ensures ValidOut(TxOut([1, 0, 0, 0, 0, 0, 0, 0], []))
    ensures Size(1) + PrintOuts([TxOut([1, 0, 0, 0, 0, 0, 0, 0], [])]) == [1, 1, 0, 0, 0, 0, 0, 0, 0, 0]
  {
    var o := TxOut([1, 0, 0, 0, 0, 0, 0, 0], []);
    assert ValidOut(o);
    assert [o][1..] == [];
    assert PrintOuts([o]) == PrintOut(o);
  }

  lemma SizeOfOne()
    ensures Size(1) == [1]
  {
  }

  // The bytes after the version: marker, then what reads as the phantom's outputs and lock time.
  function AfterMarker(rest: bytes): bytes {
    [1, 1, 0, 0, 0, 0, 0, 0, 0, 0] + (Zeros(4) + rest)
  }

  lemma StartsAsPhantom(c: Coinbase, n: nat) returns (rest: bytes)
    requires c.Valid() && c.Fits(n)
    ensures c.Prefix(n) == c.version + ([0] + AfterMarker(rest))
  {
    hide Size;
    SizeOfOne();
    assert forall i :: 0 <= i < 32 ==> c.prevout[i] == c.prevout[..32][i] == 0;
    rest := c.Prefix(n)[19..];
  }

  lemma ExtendRest(version: bytes, rest: bytes, more: bytes)
    ensures (version + ([0] + AfterMarker(rest))) + more == version + ([0] + AfterMarker(rest + more))
  {
  }

  lemma PhantomDecoded(version: bytes, rest: bytes)
    requires |version| == 4
    ensures Take(version + ([0] + AfterMarker(rest)), 4) == Some((version, [0] + AfterMarker(rest)))
    ensures ReadInputs([0] + AfterMarker(rest)) == Some(([], AfterMarker(rest)))
    ensures ReadOutputs(AfterMarker(rest)) == Some((Phantom(version).outputs, Zeros(4) + rest))
    ensures Take(Zeros(4) + rest, 4) == Some((Zeros(4), rest))
  {
    hide ReadInputs, ReadOutputs;
    TakeOf(version, [0] + AfterMarker(rest));
    NoInputs(AfterMarker(rest));
    PhantomPrinted();
    ReadOutputsOf(Phantom(version).outputs, Zeros(4) + rest);
    TakeOf(Zeros(4), rest);
  }

  lemma CutsCoinbase(c: Coinbase, n: nat)
    requires c.Valid() && c.Fits(n)
    ensures Cut(c.Prefix(n), c.Suffix()) == Stripped(c.PlainPrefix(n), c.PlainSuffix())
  {
    hide PrintOuts;
    SizeOfOne();
    var prefix, suffix := c.Prefix(n), c.Suffix();
    var w := Size(1) + Sized(c.reserved);
    assert |w| == WITNESS_LEN;
    assert prefix[..4] == c.version && prefix[6..] == c.Opening(n);
    assert suffix[|suffix| - LOCKTIME_LEN..] == c.lockTime;
    assert suffix[..|suffix| - LOCKTIME_LEN - WITNESS_LEN] == c.Closing();
  }

  // Every coinbase in extended form is stripped to the split of its legacy form.
  lemma StripsCoinbase(c: Coinbase, n: nat)
    requires c.Valid() && c.Fits(n) && Distinguishable(c.version)
    ensures TryStrip(c.Prefix(n), c.Suffix()) == Stripped(c.PlainPrefix(n), c.PlainSuffix())
  {
    hide ReadInputs, ReadOutputs, Legacy, Extended, DHash, Cut, Encode, AfterMarker, Coinbase.Prefix, Coinbase.Suffix,
         Take;
    CutsCoinbase(c, n);
    var rest := StartsAsPhantom(c, n);
    var more := Zeros(MAX_EXTRANONCE_LEN) + c.Suffix();
    ExtendRest(c.version, rest, more);
    PhantomDecoded(c.version, rest + more);
    assert c.Prefix(n) + Zeros(MAX_EXTRANONCE_LEN) + c.Suffix() == c.Prefix(n) + more;
  }

  lemma {:induction false} BarePrints(inputs: seq<TxIn>)
    requires AllIns(inputs)
    ensures AllIns(Bare(inputs)) && PrintIns(Bare(inputs)) == PrintIns(inputs)
    decreases |inputs|
  {
    assert forall k :: 0 <= k < |inputs| ==> ValidIn(inputs[k]);
    if inputs != [] {
      BarePrints(inputs[1..]);
      assert Bare(inputs)[1..] == Bare(inputs[1..]);
    }
  }

  lemma {:induction false} ReadItemsValid(b: bytes, n: nat)
    ensures var r := ReadItems(b, n);
            r.Some? ==> |r.value.0| == n && forall k :: 0 <= k < n ==> |r.value.0[k]| < U64
    decreases n
  {
    hide ReadSize;
    if n > 0 {
      ReadSizeBound(b);
      match ReadSized(b)
      case None =>
      case Some((_, b1)) => ReadItemsValid(b1, n - 1);
    }
  }

  lemma {:induction false} ReadWitnessesValid(b: bytes, inputs: seq<TxIn>)
    requires AllIns(inputs)
    ensures var r := ReadWitnesses(b, inputs); r.Some? ==> |r.value.0| == |inputs| && AllIns(r.value.0)
    decreases inputs
  {
    hide ReadSize, ReadItems;
    if inputs != [] {
      assert ValidIn(inputs[0]);
      ReadSizeBound(b);
      match ReadSize(b)
      case None =>
      case Some((n, b1)) =>
        ReadItemsValid(b1, n);
        match ReadItems(b1, n)
        case None =>
        case Some((_, b2)) => ReadWitnessesValid(b2, inputs[1..]);
    }
  }

  lemma DeserializedValid(b: bytes)
    ensures Deserialize(b).Some? ==> ValidTx(Deserialize(b).value)
  {
    hide ReadInputs, ReadOutputs, ReadWitnesses;
    if |b| >= 4 {
      var b1 := b[4..];
      ReadInputsValid(b1);
      match ReadInputs(b1)
      case None =>
      case Some((inputs, b2)) =>
        ReadOutputsValid(b2);
        if inputs == [] && b2 != [] {
          ExtendedTailValid(b[..4], b2[1..]);
        }
    }
  }

  lemma ExtendedTailValid(version: bytes, b: bytes)
    requires |version| == 4
    ensures ReadExtended(version, b).Some? ==> ValidTx(ReadExtended(version, b).value)
  {
    hide ReadInputs, ReadOutputs, ReadWitnesses;
    ReadInputsValid(b);
    match ReadInputs(b)
    case None =>
    case Some((inputs, b1)) =>
      ReadOutputsValid(b1);
      match ReadOutputs(b1)
      case None =>
      case Some((_, b2)) => ReadWitnessesValid(b2, inputs);
  }

  // `merkle_root_from_path`
  ghost function MerkleRootFromPath(prefix: bytes, suffix: bytes, extranonce: bytes, path: seq<bytes>): Option<bytes> {
    DeserializedValid(prefix + extranonce + suffix);
    match Deserialize(prefix + extranonce + suffix)
    case None => None
    case Some(coinbase) => Some(Fold(Txid(coinbase), path))
  }

  lemma BareSameId(tx: Tx)
    requires ValidTx(tx)
    ensures ValidTx(tx.(inputs := Bare(tx.inputs))) && Txid(tx.(inputs := Bare(tx.inputs))) == Txid(tx)
  {
    hide DHash, PrintIns, PrintOuts, Size;
    BarePrints(tx.inputs);
    assert Legacy(tx.(inputs := Bare(tx.inputs))) == Legacy(tx);
  }

  // Stripping preserves meaning: for every coinbase, every extranonce that fits the template and
  // every list of other transactions, the stripped halves around the extranonce are the legacy
  // serialization, and both pairs of halves give the root of the full tree over the same id.
  lemma StrippingPreservesRoot(c: Coinbase, extranonce: bytes, others: seq<bytes>)
    requires c.Valid() && c.Fits(|extranonce|) && Distinguishable(c.version)
    ensures ValidTx(c.Transaction(extranonce))
    ensures var tx := c.Transaction(extranonce);
            var prefix, suffix := c.Prefix(|extranonce|), c.Suffix();
            var stripped := TryStrip(prefix, suffix);
            && prefix + extranonce + suffix == Extended(tx)
            && stripped.Stripped?
            && stripped.prefix + extranonce + stripped.suffix == Legacy(tx)
            && MerkleRootFromPath(stripped.prefix, stripped.suffix, extranonce, Path(others)) ==
               MerkleRootFromPath(prefix, suffix, extranonce, Path(others)) ==
               Some(Root([DHash(Legacy(tx))] + others))
  {
    hide Legacy, Extended, DHash, Deserialize, Fold, TryStrip, Distinguishable;
    StripsCoinbase(c, |extranonce|);
    SplitSerializes(c, extranonce);
    var tx := c.Transaction(extranonce);
    assert tx.inputs[0].stack != [];
    ExtendedRead(tx);
    LegacyRead(tx);
    BareSameId(tx);
    FoldIsRoot(Txid(tx), others);
  }

  // Stripping again: with room for a full 32-byte extranonce nothing happens.
  lemma RestripsNothing(c: Coinbase)
    requires c.Valid() && c.Fits(MAX_EXTRANONCE_LEN)
    ensures TryStrip(c.PlainPrefix(MAX_EXTRANONCE_LEN), c.PlainSuffix()) == AlreadyStripped
  {
    hide ReadInputs, ReadOutputs, Core, Cut, DHash, Size, PrintOuts;
    var tx := c.Transaction(Zeros(MAX_EXTRANONCE_LEN));
    SplitSerializes(c, Zeros(MAX_EXTRANONCE_LEN));
    var b1 := Core(tx) + tx.lockTime;
    TakeOf(tx.version, b1);
    ReadCoreOf(tx, tx.lockTime);
    assert tx.lockTime + [] == tx.lockTime;
    TakeOf(tx.lockTime, []);
    assert Legacy(tx) == tx.version + b1;
  }

  // With any other extranonce it is at least never cut again.
  lemma RestripNeverCuts(c: Coinbase, n: nat)
    requires c.Valid() && c.Fits(n)
    ensures var again := TryStrip(c.PlainPrefix(n), c.PlainSuffix()); again.AlreadyStripped? || again.Unreadable?
  {
    hide TryStrip;
    SizeOfOne();
    assert c.PlainPrefix(n)[4] == 1;
    NeverStripsUnmarked(c.PlainPrefix(n), c.PlainSuffix());
  }

  // One input whose script is announced as `len` bytes, whatever those bytes are.
  lemma ReadOneInput(prevout: bytes, len: nat, after: bytes)
    requires |prevout| == 36 && len < U64
    ensures ReadInputs(Size(1) + (prevout + (Size(len) + after))) ==
            if |after| < len + 4 then None
            else Some(([TxIn(prevout, after[..len], after[len..][..4], [])], after[len..][4..]))
  {
    hide Size, ReadSize;
    ReadSizeOf(1, prevout + (Size(len) + after));
    TakeOf(prevout, Size(len) + after);
    ReadSizeOf(len, after);
    var input := ReadIn(prevout + (Size(len) + after));
    if |after| < len + 4 {
      assert input == None;
    } else {
      var i := TxIn(prevout, after[..len], after[len..][..4], []);
      assert input == Some((i, after[len..][4..]));
      assert ReadIns(after[len..][4..], 0) == Some(([], after[len..][4..]));
      assert [i] + [] == [i];
    }
  }

  // What the parser finds after the script, when 32 zeros stand for an extranonce of `n` bytes.
  ghost function Window(c: Coinbase, n: nat): bytes
    requires c.Valid()
  {
    var rest := Zeros(MAX_EXTRANONCE_LEN) + c.PlainSuffix();
    if n + |c.tail| <= |rest| then rest[n + |c.tail|..] else []
  }

  // Four bytes of it go for a sequence number; the rest must read as outputs and a lock time.
  ghost function Restripped(window: bytes): Strip {
    if |window| < 4 then Unreadable(Inputs)
    else
      match ReadOutputs(window[4..])
      case None => Unreadable(Outputs)
      case Some((_, rest)) => if |rest| < 4 then Unreadable(LockTime) else AlreadyStripped
  }

  lemma ReadStripped(c: Coinbase, n: nat) returns (b1: bytes)
    requires c.Valid() && c.Fits(n)
    ensures Take(c.PlainPrefix(n) + Zeros(MAX_EXTRANONCE_LEN) + c.PlainSuffix(), 4) == Some((c.version, b1))
    ensures |Window(c, n)| < 4 ==> ReadInputs(b1) == None
    ensures |Window(c, n)| >= 4 ==>
              && ReadInputs(b1).Some? && |ReadInputs(b1).value.0| == 1 && NoWitness(ReadInputs(b1).value.0)
              && ReadInputs(b1).value.1 == Window(c, n)[4..]
  {
    hide Size, PrintOuts, ReadInputs, Coinbase.PlainSuffix;
    var rest, len := Zeros(MAX_EXTRANONCE_LEN) + c.PlainSuffix(), |c.head| + n + |c.tail|;
    b1 := Size(1) + (c.prevout + (Size(len) + (c.head + rest)));
    ReadOneInput(c.prevout, len, c.head + rest);
    TakeOf(c.version, b1);
    RegroupInput(c.version, Size(1), c.prevout, Size(len), c.head, Zeros(MAX_EXTRANONCE_LEN), c.PlainSuffix());
    if len <= |c.head + rest| {
      assert (c.head + rest)[len..] == Window(c, n);
    }
  }

  lemma RegroupInput(v: bytes, one: bytes, p: bytes, size: bytes, h: bytes, z: bytes, a: bytes)
    ensures (v + (one + p + size + h)) + z + a == v + (one + (p + (size + (h + (z + a)))))
  {
  }

  // Stripping again, for every coinbase and every extranonce: nothing to do exactly when what follows
  // the announced script has four bytes, then outputs, then a lock time. With room for at most 32
  // bytes the input itself always reads.
  lemma RestripExact(c: Coinbase, n: nat)
    requires c.Valid() && c.Fits(n)
    ensures TryStrip(c.PlainPrefix(n), c.PlainSuffix()) == Restripped(Window(c, n))
    ensures n <= MAX_EXTRANONCE_LEN ==> |Window(c, n)| == |c.PlainSuffix()| - |c.tail| + MAX_EXTRANONCE_LEN - n >= 9
  {
    hide ReadInputs, ReadOutputs, Legacy, Extended, DHash, Cut, Coinbase.PlainPrefix, Window;
    var b1 := ReadStripped(c, n);
    WindowLength(c, n);
    if |Window(c, n)| >= 4 { ReadInputsValid(b1); }
  }

  lemma WindowLength(c: Coinbase, n: nat)
    requires c.Valid()
    ensures n <= MAX_EXTRANONCE_LEN ==> |Window(c, n)| == |c.PlainSuffix()| - |c.tail| + MAX_EXTRANONCE_LEN - n >= 9
  {
    hide Size, PrintOuts;
    assert |Size(|c.outputs|)| >= 1;
    assert |c.PlainSuffix()| >= |c.tail| + 9;
  }

  lemma {:induction false} ReadOutsNeeds(b: bytes, n: nat)
    ensures ReadOuts(b, n).Some? ==> 9 * n <= |b|
    decreases n
  {
    if n > 0 && |b| >= 8 {
      match ReadOut(b)
      case None =>
      case Some((_, b1)) =>
        ReadOutShrinks(b);
        ReadOutsNeeds(b1, n - 1);
    }
  }

  lemma ReadOutShrinks(b: bytes)
    ensures ReadOut(b).Some? ==> |ReadOut(b).value.1| + 9 <= |b|
  {
    hide LeNat;
  }

  lemma NoOutputs(rest: bytes)
    ensures ReadOutputs([0] + rest) == Some(([], rest))
  {
    assert ([0] + rest)[1..] == rest;
  }

  // A count of 2^16 or more needs more bytes than there are.
  lemma TooManyOutputs(b: bytes)
    requires 0 < |b| <= 0xFFFF && b[0] >= 0xFE
    ensures ReadOutputs(b) == None
  {
    hide LeNat, ReadOuts;
    match ReadSize(b)
    case None =>
    case Some((n, rest)) => ReadOutsNeeds(rest, n);
  }

  // The same in lengths alone, for a script that ends with the extranonce and a sequence number
  // without low bytes: the 32 zeros are right for 32 bytes, and for 27 or fewer they read as an empty
  // list of outputs and a lock time.
  lemma RestripByLength(c: Coinbase, n: nat)
    requires c.Valid() && c.Fits(n) && n <= MAX_EXTRANONCE_LEN && c.tail == [] && |c.PlainSuffix()| <= 0xFFFF
    requires forall k :: 0 <= k < 4 ==> c.sequence[k] >= 0xFE
    ensures var again := TryStrip(c.PlainPrefix(n), c.PlainSuffix());
            && (again == AlreadyStripped <==> n == MAX_EXTRANONCE_LEN || n <= 27)
            && (again != AlreadyStripped ==> again == Unreadable(Outputs))
  {
    hide TryStrip, ReadOutputs, Size;
    RestripExact(c, n);
    var w := Window(c, n);
    if n == MAX_EXTRANONCE_LEN {
      RestripsNothing(c);
    } else if n <= 27 {
      assert w[4..] == [0] + w[5..];
      NoOutputs(w[5..]);
    } else {
      assert w[4] == c.sequence[n - 28];
      TooManyOutputs(w[4..]);
    }
  }

  // A stripped coinbase that is refused: a 31-byte extranonce at the end of its script, and a 20-byte
  // one with twelve bytes after it. One that is not, though its extranonce has 28: zero sequence.
  lemma RestripMayFail()
    ensures var c := Coinbase(Zeros(4), Zeros(36), [], [], [255, 255, 255, 255], [], Zeros(32), Zeros(4));
            && c.Valid() && c.Fits(31)
            && TryStrip(c.PlainPrefix(31), c.PlainSuffix()) == Unreadable(Outputs)
    ensures var c := Coinbase(Zeros(4), Zeros(36), [], seq(12, _ => 255), [255, 255, 255, 255], [], Zeros(32),
                              Zeros(4));
            && c.Valid() && c.Fits(20)
            && TryStrip(c.PlainPrefix(20), c.PlainSuffix()) == Unreadable(Outputs)
    ensures var c := Coinbase(Zeros(4), Zeros(36), [], [], Zeros(4), [], Zeros(32), Zeros(4));
            && c.Valid() && c.Fits(28)
            && TryStrip(c.PlainPrefix(28), c.PlainSuffix()) == AlreadyStripped
  {
    RestripEnding();
    RestripMiddle();
    RestripZeroSequence();
  }

  lemma RestripEnding()
    ensures var c := Coinbase(Zeros(4), Zeros(36), [], [], [255, 255, 255, 255], [], Zeros(32), Zeros(4));
            && c.Valid() && c.Fits(31)
            && TryStrip(c.PlainPrefix(31), c.PlainSuffix()) == Unreadable(Outputs)
  {
    hide TryStrip;
    var c := Coinbase(Zeros(4), Zeros(36), [], [], [255, 255, 255, 255], [], Zeros(32), Zeros(4));
    assert c.prevout[..32] == Zeros(32);
    RestripByLength(c, 31);
  }

  lemma RestripMiddle()
    ensures var c := Coinbase(Zeros(4), Zeros(36), [], seq(12, _ => 255), [255, 255, 255, 255], [], Zeros(32),
                              Zeros(4));
            && c.Valid() && c.Fits(20)
            && TryStrip(c.PlainPrefix(20), c.PlainSuffix()) == Unreadable(Outputs)
  {
    hide TryStrip, ReadOutputs;
    var c := Coinbase(Zeros(4), Zeros(36), [], seq(12, _ => 255), [255, 255, 255, 255], [], Zeros(32), Zeros(4));
    assert c.prevout[..32] == Zeros(32);
    RestripExact(c, 20);
    var w := Window(c, 20);
    assert w[4] == 255;
    TooManyOutputs(w[4..]);
  }

  lemma RestripZeroSequence()
    ensures var c := Coinbase(Zeros(4), Zeros(36), [], [], Zeros(4), [], Zeros(32), Zeros(4));
            && c.Valid() && c.Fits(28)
            && TryStrip(c.PlainPrefix(28), c.PlainSuffix()) == AlreadyStripped
  {
    hide TryStrip, ReadOutputs;
    var c := Coinbase(Zeros(4), Zeros(36), [], [], Zeros(4), [], Zeros(32), Zeros(4));
    assert c.prevout[..32] == Zeros(32);
    RestripExact(c, 28);
    var w := Window(c, 28);
    assert w[4..] == [0] + w[5..];
    NoOutputs(w[5..]);
  }
}
