/** Bitcoin transactions on the wire: the legacy form and the one of BIP 144, as the `bitcoin` library
    prints and parses them. */
module Bitcoin {
  import opened Bytes
  import opened Merkle

  datatype TxIn = TxIn(prevout: bytes, script: bytes, sequence: bytes, stack: seq<bytes>)

  datatype TxOut = TxOut(value: bytes, script: bytes)

  datatype Tx = Tx(version: bytes, inputs: seq<TxIn>, outputs: seq<TxOut>, lockTime: bytes)

  const U64: nat := 0x1_0000_0000_0000_0000

  // Sizes that the wire can carry.
  ghost predicate ValidIn(i: TxIn) {
    && |i.prevout| == 36 && |i.script| < U64 && |i.sequence| == 4
    && |i.stack| < U64 && forall k :: 0 <= k < |i.stack| ==> |i.stack[k]| < U64
  }

  ghost predicate ValidOut(o: TxOut) {
    |o.value| == 8 && |o.script| < U64
  }

  ghost predicate ValidTx(tx: Tx) {
    && |tx.version| == 4 && |tx.lockTime| == 4
    && |tx.inputs| < U64 && (forall k :: 0 <= k < |tx.inputs| ==> ValidIn(tx.inputs[k]))
    && |tx.outputs| < U64 && (forall k :: 0 <= k < |tx.outputs| ==> ValidOut(tx.outputs[k]))
  }

  // Printing.

  function Size(n: nat): (b: bytes)
    requires n < U64
    ensures b != []
  {
    if n < 0xFD then [n as byte]
    else if n < 0x1_0000 then [0xFD] + LeBytes(n, 2)
    else if n < 0x1_0000_0000 then [0xFE] + LeBytes(n, 4)
    else [0xFF] + LeBytes(n, 8)
  }

  function Sized(b: bytes): bytes
    requires |b| < U64
  {
    Size(|b|) + b
  }

  ghost function PrintIn(i: TxIn): bytes
    requires ValidIn(i)
  {
    i.prevout + Sized(i.script) + i.sequence
  }

  ghost function PrintOut(o: TxOut): bytes
    requires ValidOut(o)
  {
    o.value + Sized(o.script)
  }

  ghost function PrintIns(inputs: seq<TxIn>): bytes
    requires forall k :: 0 <= k < |inputs| ==> ValidIn(inputs[k])
  {
    if inputs == [] then [] else PrintIn(inputs[0]) + PrintIns(inputs[1..])
  }

  ghost function PrintOuts(outputs: seq<TxOut>): bytes
    requires forall k :: 0 <= k < |outputs| ==> ValidOut(outputs[k])
  {
    if outputs == [] then [] else PrintOut(outputs[0]) + PrintOuts(outputs[1..])
  }

  ghost function PrintItems(items: seq<bytes>): bytes
    requires forall k :: 0 <= k < |items| ==> |items[k]| < U64
  {
    if items == [] then [] else Sized(items[0]) + PrintItems(items[1..])
  }

  ghost function PrintWitnesses(inputs: seq<TxIn>): bytes
    requires forall k :: 0 <= k < |inputs| ==> ValidIn(inputs[k])
  {
    if inputs == [] then []
    else
      assert ValidIn(inputs[0]);
      (Size(|inputs[0].stack|) + PrintItems(inputs[0].stack)) + PrintWitnesses(inputs[1..])
  }

  // Inputs and outputs with their counts.
  ghost function Core(tx: Tx): bytes
    requires ValidTx(tx)
  {
    (Size(|tx.inputs|) + PrintIns(tx.inputs)) + (Size(|tx.outputs|) + PrintOuts(tx.outputs))
  }

  ghost function Legacy(tx: Tx): bytes
    requires ValidTx(tx)
  {
    tx.version + Core(tx) + tx.lockTime
  }

  // With marker, flag and witnesses.
  ghost function Extended(tx: Tx): bytes
    requires ValidTx(tx)
  {
    tx.version + [0, 1] + Core(tx) + PrintWitnesses(tx.inputs) + tx.lockTime
  }

  ghost predicate NoWitness(inputs: seq<TxIn>) {
    forall k :: 0 <= k < |inputs| ==> inputs[k].stack == []
  }

  ghost predicate UsesSegwit(tx: Tx) {
    tx.inputs == [] || !NoWitness(tx.inputs)
  }

  ghost function Encode(tx: Tx): bytes
    requires ValidTx(tx)
  {
    if UsesSegwit(tx) then Extended(tx) else Legacy(tx)
  }

  ghost function Txid(tx: Tx): bytes
    requires ValidTx(tx)
  {
    DHash(Legacy(tx))
  }

  ghost function Wtxid(tx: Tx): bytes
    requires ValidTx(tx)
  {
    DHash(Encode(tx))
  }

  // Parsing: the value and the bytes after it.

  function Take(b: bytes, n: nat): (r: Option<(bytes, bytes)>)
    ensures r.Some? ==> |r.value.0| == n && r.value.0 + r.value.1 == b
  {
    if |b| < n then None else Some((b[..n], b[n..]))
  }

  // A number `k` bytes wide, refused when a shorter form would do.
  function ReadNumber(b: bytes, k: nat, least: nat): Option<(nat, bytes)> {
    match Take(b, k)
    case None => None
    case Some((digits, rest)) => if LeNat(digits) < least then None else Some((LeNat(digits), rest))
  }

  function ReadSize(b: bytes): Option<(nat, bytes)> {
    if b == [] then None
    else if b[0] == 0xFF then ReadNumber(b[1..], 8, 0x1_0000_0000)
    else if b[0] == 0xFE then ReadNumber(b[1..], 4, 0x1_0000)
    else if b[0] == 0xFD then ReadNumber(b[1..], 2, 0xFD)
    else Some((b[0] as nat, b[1..]))
  }

  function ReadSized(b: bytes): Option<(bytes, bytes)> {
    match ReadSize(b)
    case None => None
    case Some((n, rest)) => Take(rest, n)
  }

  function ReadIn(b: bytes): Option<(TxIn, bytes)> {
    match Take(b, 36)
    case None => None
    case Some((prevout, b1)) =>
      match ReadSized(b1)
      case None => None
      case Some((script, b2)) =>
        match Take(b2, 4)
        case None => None
        case Some((sequence, b3)) => Some((TxIn(prevout, script, sequence, []), b3))
  }

  function ReadOut(b: bytes): Option<(TxOut, bytes)> {
    match Take(b, 8)
    case None => None
    case Some((value, b1)) =>
      match ReadSized(b1)
      case None => None
      case Some((script, b2)) => Some((TxOut(value, script), b2))
  }

  function ReadIns(b: bytes, n: nat): Option<(seq<TxIn>, bytes)>
    decreases n
  {
    if n == 0 then Some(([], b))
    else
      match ReadIn(b)
      case None => None
      case Some((first, b1)) =>
        match ReadIns(b1, n - 1)
        case None => None
        case Some((others, b2)) => Some(([first] + others, b2))
  }

  function ReadOuts(b: bytes, n: nat): Option<(seq<TxOut>, bytes)>
    decreases n
  {
    if n == 0 then Some(([], b))
    else
      match ReadOut(b)
      case None => None
      case Some((first, b1)) =>
        match ReadOuts(b1, n - 1)
        case None => None
        case Some((others, b2)) => Some(([first] + others, b2))
  }

  function ReadItems(b: bytes, n: nat): Option<(seq<bytes>, bytes)>
    decreases n
  {
    if n == 0 then Some(([], b))
    else
      match ReadSized(b)
      case None => None
      case Some((first, b1)) =>
        match ReadItems(b1, n - 1)
        case None => None
        case Some((others, b2)) => Some(([first] + others, b2))
  }

  // Fills in the witnesses of inputs already read.
  function ReadWitnesses(b: bytes, inputs: seq<TxIn>): Option<(seq<TxIn>, bytes)>
    decreases inputs
  {
    if inputs == [] then Some(([], b))
    else
      match ReadSize(b)
      case None => None
      case Some((n, b1)) =>
        match ReadItems(b1, n)
        case None => None
        case Some((items, b2)) =>
          match ReadWitnesses(b2, inputs[1..])
          case None => None
          case Some((others, b3)) => Some(([inputs[0].(stack := items)] + others, b3))
  }

  function ReadInputs(b: bytes): Option<(seq<TxIn>, bytes)> {
    match ReadSize(b)
    case None => None
    case Some((n, rest)) => ReadIns(rest, n)
  }

  function ReadOutputs(b: bytes): Option<(seq<TxOut>, bytes)> {
    match ReadSize(b)
    case None => None
    case Some((n, rest)) => ReadOuts(rest, n)
  }

  function ReadCore(b: bytes): Option<(seq<TxIn>, seq<TxOut>, bytes)> {
    match ReadInputs(b)
    case None => None
    case Some((inputs, b1)) =>
      match ReadOutputs(b1)
      case None => None
      case Some((outputs, b2)) => Some((inputs, outputs, b2))
  }

  // The end of a transaction: nothing may follow.
  function Finish(version: bytes, inputs: seq<TxIn>, outputs: seq<TxOut>, b: bytes): Option<Tx> {
    if |b| == 4 then Some(Tx(version, inputs, outputs, b)) else None
  }

  // After marker and flag.
  function ReadExtended(version: bytes, b: bytes): Option<Tx> {
    match ReadCore(b)
    case None => None
    case Some((inputs, outputs, b1)) =>
      match ReadWitnesses(b1, inputs)
      case None => None
      case Some((full, b2)) =>
        if full != [] && forall k :: 0 <= k < |full| ==> full[k].stack == [] then None
        else Finish(version, full, outputs, b2)
  }

  // `consensus::deserialize`
  function Deserialize(b: bytes): Option<Tx> {
    match Take(b, 4)
    case None => None
    case Some((version, b1)) =>
      match ReadInputs(b1)
      case None => None
      case Some((inputs, b2)) =>
        if inputs == [] then
          if b2 == [] || b2[0] != 1 then None else ReadExtended(version, b2[1..])
        else
          match ReadOutputs(b2)
          case None => None
          case Some((outputs, b3)) => Finish(version, inputs, outputs, b3)
  }

  // Parsing undoes printing, whatever follows.

  lemma TakeOf(a: bytes, rest: bytes)
    ensures Take(a + rest, |a|) == Some((a, rest))
  {
  }

  lemma ReadNumberOf(n: nat, k: nat, least: nat, rest: bytes)
    requires least <= n < Pow256(k)
    ensures ReadNumber(LeBytes(n, k) + rest, k, least) == Some((n, rest))
  {
    TakeOf(LeBytes(n, k), rest);
    LeNatOfLeBytes(n, k);
  }

  lemma ReadSizeOf(n: nat, rest: bytes)
    requires n < U64
    ensures ReadSize(Size(n) + rest) == Some((n, rest))
  {
    hide LeBytes, ReadNumber, Pow256;
    Widths();
    var b := Size(n) + rest;
    if n < 0xFD {
      assert b[1..] == rest;
    } else if n < 0x1_0000 {
      assert b[1..] == LeBytes(n, 2) + rest;
      ReadNumberOf(n, 2, 0xFD, rest);
    } else if n < 0x1_0000_0000 {
      assert b[1..] == LeBytes(n, 4) + rest;
      ReadNumberOf(n, 4, 0x1_0000, rest);
    } else {
      assert b[1..] == LeBytes(n, 8) + rest;
      ReadNumberOf(n, 8, 0x1_0000_0000, rest);
    }
  }

  // The four forms of a size in numbers, least significant byte first.
  lemma SizeLayout(n: nat)
    requires n < U64
    ensures n <= 252 ==> Size(n) == [n as byte]
    ensures 253 <= n <= 65535 ==> |Size(n)| == 3 && Size(n)[0] == 253 && LeNat(Size(n)[1..]) == n
    ensures 65536 <= n <= 4294967295 ==> |Size(n)| == 5 && Size(n)[0] == 254 && LeNat(Size(n)[1..]) == n
    ensures 4294967296 <= n ==> |Size(n)| == 9 && Size(n)[0] == 255 && LeNat(Size(n)[1..]) == n
  {
    hide LeBytes, LeNat, Pow256;
    Widths();
    if n <= 252 {
    } else if n <= 65535 {
      LeNatOfLeBytes(n, 2);
      assert Size(n)[1..] == LeBytes(n, 2);
    } else if n <= 4294967295 {
      LeNatOfLeBytes(n, 4);
      assert Size(n)[1..] == LeBytes(n, 4);
    } else {
      LeNatOfLeBytes(n, 8);
      assert Size(n)[1..] == LeBytes(n, 8);
    }
  }

  lemma ReadNumberExact(b: bytes, k: nat, least: nat)
    ensures ReadNumber(b, k, least).Some? ==>
              var (n, rest) := ReadNumber(b, k, least).value;
              least <= n < Pow256(k) && b == LeBytes(n, k) + rest
  {
    if |b| >= k { LeBytesOfLeNat(b[..k]); }
  }

  // A size is read exactly when it stands there in its one form: longer forms are refused.
  lemma ReadSizeExact(b: bytes, n: nat, rest: bytes)
    ensures ReadSize(b) == Some((n, rest)) <==> n < U64 && b == Size(n) + rest
  {
    hide LeBytes, LeNat, Pow256, ReadNumber;
    if n < U64 { ReadSizeOf(n, rest); }
    if ReadSize(b) == Some((n, rest)) {
      Widths();
      assert b == [b[0]] + b[1..];
      ReadNumberExact(b[1..], 2, 0xFD);
      ReadNumberExact(b[1..], 4, 0x1_0000);
      ReadNumberExact(b[1..], 8, 0x1_0000_0000);
    }
  }

  lemma ReadSizedOf(a: bytes, rest: bytes)
    requires |a| < U64
    ensures ReadSized(Sized(a) + rest) == Some((a, rest))
  {
    hide Size, ReadSize;
    ReadSizeOf(|a|, a + rest);
    TakeOf(a, rest);
    assert Sized(a) + rest == Size(|a|) + (a + rest);
  }

  lemma ReadInOf(i: TxIn, rest: bytes)
    requires ValidIn(i)
    ensures ReadIn(PrintIn(i) + rest) == Some((i.(stack := []), rest))
  {
    hide Sized, ReadSized, Take;
    TakeOf(i.prevout, Sized(i.script) + (i.sequence + rest));
    ReadSizedOf(i.script, i.sequence + rest);
    TakeOf(i.sequence, rest);
    assert PrintIn(i) + rest == i.prevout + (Sized(i.script) + (i.sequence + rest));
  }

  lemma ReadOutOf(o: TxOut, rest: bytes)
    requires ValidOut(o)
    ensures ReadOut(PrintOut(o) + rest) == Some((o, rest))
  {
    hide Sized, ReadSized, Take;
    TakeOf(o.value, Sized(o.script) + rest);
    ReadSizedOf(o.script, rest);
    assert PrintOut(o) + rest == o.value + (Sized(o.script) + rest);
  }

  ghost function Bare(inputs: seq<TxIn>): seq<TxIn> {
    seq(|inputs|, k requires 0 <= k < |inputs| => inputs[k].(stack := []))
  }

  lemma {:induction false} ReadInsOf(inputs: seq<TxIn>, rest: bytes)
    requires forall k :: 0 <= k < |inputs| ==> ValidIn(inputs[k])
    ensures ReadIns(PrintIns(inputs) + rest, |inputs|) == Some((Bare(inputs), rest))
    decreases |inputs|
  {
    hide PrintIn, ReadIn, ValidIn;
    if inputs == [] {
      assert [] + rest == rest;
    } else {
      var later := PrintIns(inputs[1..]) + rest;
      ReadInOf(inputs[0], later);
      ReadInsOf(inputs[1..], rest);
      assert PrintIns(inputs) + rest == PrintIn(inputs[0]) + later;
      assert Bare(inputs) == [inputs[0].(stack := [])] + Bare(inputs[1..]);
    }
  }

  lemma {:induction false} ReadOutsOf(outputs: seq<TxOut>, rest: bytes)
    requires forall k :: 0 <= k < |outputs| ==> ValidOut(outputs[k])
    ensures ReadOuts(PrintOuts(outputs) + rest, |outputs|) == Some((outputs, rest))
    decreases |outputs|
  {
    hide PrintOut, ReadOut, ValidOut;
    if outputs == [] {
      assert [] + rest == rest;
    } else {
      var later := PrintOuts(outputs[1..]) + rest;
      ReadOutOf(outputs[0], later);
      ReadOutsOf(outputs[1..], rest);
      assert PrintOuts(outputs) + rest == PrintOut(outputs[0]) + later;
      assert outputs == [outputs[0]] + outputs[1..];
    }
  }

  lemma {:induction false} ReadItemsOf(items: seq<bytes>, rest: bytes)
    requires forall k :: 0 <= k < |items| ==> |items[k]| < U64
    ensures ReadItems(PrintItems(items) + rest, |items|) == Some((items, rest))
    decreases |items|
  {
    hide Sized, ReadSized;
    if items == [] {
      assert [] + rest == rest;
    } else {
      var later := PrintItems(items[1..]) + rest;
      ReadSizedOf(items[0], later);
      ReadItemsOf(items[1..], rest);
      assert PrintItems(items) + rest == Sized(items[0]) + later;
      assert items == [items[0]] + items[1..];
    }
  }

  lemma {:induction false} ReadWitnessesOf(inputs: seq<TxIn>, rest: bytes)
    requires forall k :: 0 <= k < |inputs| ==> ValidIn(inputs[k])
    ensures ReadWitnesses(PrintWitnesses(inputs) + rest, Bare(inputs)) == Some((inputs, rest))
    decreases |inputs|
  {
    hide Size, ReadSize, PrintItems, ReadItems;
    if inputs == [] {
      assert [] + rest == rest;
    } else {
      var later := PrintWitnesses(inputs[1..]) + rest;
      var items := inputs[0].stack;
      ReadSizeOf(|items|, PrintItems(items) + later);
      ReadItemsOf(items, later);
      ReadWitnessesOf(inputs[1..], rest);
      assert PrintWitnesses(inputs) + rest == Size(|items|) + (PrintItems(items) + later);
      assert Bare(inputs)[1..] == Bare(inputs[1..]);
      assert Bare(inputs)[0].(stack := items) == inputs[0];
      assert inputs == [inputs[0]] + inputs[1..];
    }
  }

  lemma ReadInputsOf(inputs: seq<TxIn>, rest: bytes)
    requires |inputs| < U64 && forall k :: 0 <= k < |inputs| ==> ValidIn(inputs[k])
    ensures ReadInputs((Size(|inputs|) + PrintIns(inputs)) + rest) == Some((Bare(inputs), rest))
  {
    hide Size, ReadSize, PrintIns, ReadIns, Bare, ValidIn;
    ReadSizeOf(|inputs|, PrintIns(inputs) + rest);
    ReadInsOf(inputs, rest);
    assert (Size(|inputs|) + PrintIns(inputs)) + rest == Size(|inputs|) + (PrintIns(inputs) + rest);
  }

  lemma ReadOutputsOf(outputs: seq<TxOut>, rest: bytes)
    requires |outputs| < U64 && forall k :: 0 <= k < |outputs| ==> ValidOut(outputs[k])
    ensures ReadOutputs((Size(|outputs|) + PrintOuts(outputs)) + rest) == Some((outputs, rest))
  {
    hide Size, ReadSize, PrintOuts, ReadOuts, ValidOut;
    ReadSizeOf(|outputs|, PrintOuts(outputs) + rest);
    ReadOutsOf(outputs, rest);
    assert (Size(|outputs|) + PrintOuts(outputs)) + rest == Size(|outputs|) + (PrintOuts(outputs) + rest);
  }

  lemma ReadCoreOf(tx: Tx, rest: bytes)
    requires ValidTx(tx)
    ensures ReadInputs(Core(tx) + rest) ==
            Some((Bare(tx.inputs), (Size(|tx.outputs|) + PrintOuts(tx.outputs)) + rest))
    ensures ReadOutputs((Size(|tx.outputs|) + PrintOuts(tx.outputs)) + rest) == Some((tx.outputs, rest))
    ensures ReadCore(Core(tx) + rest) == Some((Bare(tx.inputs), tx.outputs, rest))
  {
    hide Size, PrintIns, PrintOuts, ReadInputs, ReadOutputs, Bare;
    var outs := Size(|tx.outputs|) + PrintOuts(tx.outputs);
    ReadInputsOf(tx.inputs, outs + rest);
    ReadOutputsOf(tx.outputs, rest);
    assert Core(tx) + rest == (Size(|tx.inputs|) + PrintIns(tx.inputs)) + (outs + rest);
  }

  // The legacy form of a transaction with inputs reads back as the transaction without witnesses.
  lemma LegacyRead(tx: Tx)
    requires ValidTx(tx) && tx.inputs != []
    ensures Deserialize(Legacy(tx)) == Some(tx.(inputs := Bare(tx.inputs)))
  {
    hide Core, ReadInputs, ReadOutputs, ReadCore, Size, PrintOuts;
    TakeOf(tx.version, Core(tx) + tx.lockTime);
    ReadCoreOf(tx, tx.lockTime);
    assert Legacy(tx) == tx.version + (Core(tx) + tx.lockTime);
  }

  // The extended form reads back whole, unless there is nothing to extend.
  lemma ExtendedRead(tx: Tx)
    requires ValidTx(tx) && UsesSegwit(tx)
    ensures Deserialize(Extended(tx)) == Some(tx)
  {
    hide Core, ReadOutputs, ReadCore, PrintWitnesses, ReadWitnesses, Bare, ReadIns, ReadExtended;
    var ending := PrintWitnesses(tx.inputs) + tx.lockTime;
    var rest := Core(tx) + ending;
    assert Extended(tx) == tx.version + ([0, 1] + rest);
    TakeOf(tx.version, [0, 1] + rest);
    var marked: bytes := [0, 1] + rest;
    assert marked[1..] == [1] + rest && ([1] + rest)[1..] == rest;
    NoInputs([1] + rest);
    assert ReadInputs(marked) == Some(([], [1] + rest)) by { assert marked == [0] + ([1] + rest); }
    ExtendedTailRead(tx);
  }

  lemma NoInputs(rest: bytes)
    ensures ReadInputs([0] + rest) == Some(([], rest))
  {
    assert ([0] + rest)[1..] == rest;
  }

  lemma ExtendedTailRead(tx: Tx)
    requires ValidTx(tx) && UsesSegwit(tx)
    ensures ReadExtended(tx.version, Core(tx) + (PrintWitnesses(tx.inputs) + tx.lockTime)) == Some(tx)
  {
    hide Core, ReadCore, PrintWitnesses, ReadWitnesses, Bare;
    ReadCoreOf(tx, PrintWitnesses(tx.inputs) + tx.lockTime);
    ReadWitnessesOf(tx.inputs, tx.lockTime);
  }

  // Every transaction survives the wire.
  lemma TransactionRoundTrip(tx: Tx)
    requires ValidTx(tx)
    ensures Deserialize(Encode(tx)) == Some(tx)
  {
    if UsesSegwit(tx) {
      ExtendedRead(tx);
    } else {
      LegacyRead(tx);
      assert Bare(tx.inputs) == tx.inputs;
    }
  }

  // A transaction of one input and one output written out, in both forms, where sizes are one byte.
  lemma WrittenOut(version: bytes, i: TxIn, item: bytes, o: TxOut, lockTime: bytes)
    requires |version| == |lockTime| == 4 && ValidIn(i) && ValidOut(o) && i.stack == [item]
    requires |i.script| <= 252 && |item| <= 252 && |o.script| <= 252
    ensures var tx := Tx(version, [i], [o], lockTime);
            var input := i.prevout + [|i.script| as byte] + i.script + i.sequence;
            var output := o.value + [|o.script| as byte] + o.script;
            && ValidTx(tx)
            && Legacy(tx) == version + ([1] + input + [1] + output) + lockTime
            && Extended(tx) == version + [0, 1] + ([1] + input + [1] + output) +
                               [1, |item| as byte] + item + lockTime
  {
    hide Legacy, Extended, ValidIn, ValidOut;
    var tx := Tx(version, [i], [o], lockTime);
    OneOfEach(i, item, o);
    CoreOfOne(tx, PrintIn(i), PrintOut(o));
    FormsOf(tx, PrintWitnesses([i]));
    var items: bytes := [1, |item| as byte] + item;
    assert PrintWitnesses([i]) == items;
    assert version + [0, 1] + Core(tx) + items + lockTime ==
           version + [0, 1] + Core(tx) + [1, |item| as byte] + item + lockTime;
  }

  lemma OneOfEach(i: TxIn, item: bytes, o: TxOut)
    requires ValidIn(i) && ValidOut(o) && i.stack == [item]
    requires |i.script| <= 252 && |item| <= 252 && |o.script| <= 252
    ensures PrintIn(i) == i.prevout + [|i.script| as byte] + i.script + i.sequence
    ensures PrintOut(o) == o.value + [|o.script| as byte] + o.script
    ensures PrintIns([i]) == PrintIn(i) && PrintOuts([o]) == PrintOut(o)
    ensures PrintWitnesses([i]) == [1, |item| as byte] + item
  {
    assert PrintIns([i]) == PrintIn(i) + [] == PrintIn(i);
    assert PrintOuts([o]) == PrintOut(o) + [] == PrintOut(o);
    var items: bytes := Sized(item) + [];
    assert PrintItems([item]) == items;
    assert PrintWitnesses([i]) == ([1] + items) + [];
  }

  lemma CoreOfOne(tx: Tx, input: bytes, output: bytes)
    requires ValidTx(tx) && |tx.inputs| == |tx.outputs| == 1
    requires PrintIns(tx.inputs) == input && PrintOuts(tx.outputs) == output
    ensures Core(tx) == [1] + input + [1] + output
  {
    hide PrintIns, PrintOuts;
    assert ([1] + input) + ([1] + output) == [1] + input + [1] + output;
  }

  lemma FormsOf(tx: Tx, witnesses: bytes)
    requires ValidTx(tx) && PrintWitnesses(tx.inputs) == witnesses
    ensures Legacy(tx) == tx.version + Core(tx) + tx.lockTime
    ensures Extended(tx) == tx.version + [0, 1] + Core(tx) + witnesses + tx.lockTime
  {
    hide Core, PrintWitnesses;
  }
}
