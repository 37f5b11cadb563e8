/** Stratum V1 field encodings: hex strings, padded words, swapped previous hashes, version masks. */
module Hex {
  import opened Bytes

  const U32: nat := 0x1_0000_0000

  // A parser's outcome. `Panics` is an unwrap, a panic, or an arithmetic underflow.
  datatype Parsed<+T> = Ok(value: T) | Malformed | Panics
  {
    predicate IsFailure() {
      !Ok?
    }

    function PropagateFailure<U>(): Parsed<U>
      requires IsFailure()
    {
      if Panics? then Parsed<U>.Panics else Parsed<U>.Malformed
    }

    function Extract(): T
      requires !IsFailure()
    {
      value
    }
  }

  newtype Word = x: int | 0 <= x < 0x1_0000_0000

  function DigitOf(n: nat): char
    requires n < 16
  {
    "0123456789abcdef"[n]
  }

  // Either case is read.
  function ValueOf(c: char): Option<nat> {
    if '0' <= c <= '9' then Some(c as nat - '0' as nat)
    else if 'a' <= c <= 'f' then Some(c as nat - 'a' as nat + 10)
    else if 'A' <= c <= 'F' then Some(c as nat - 'A' as nat + 10)
    else None
  }

  lemma DigitRoundTrip(n: nat)
    requires n < 16
    ensures ValueOf(DigitOf(n)) == Some(n)
  {
  }

  function PrintByte(b: byte): (s: string)
    ensures |s| == 2
  {
    [DigitOf(b as nat / 16), DigitOf(b as nat % 16)]
  }

  function ReadByte(high: char, low: char): Option<byte> {
    match (ValueOf(high), ValueOf(low))
    case (Some(h), Some(l)) => if h < 16 && l < 16 then Some((16 * h + l) as byte) else None
    case _ => None
  }

  // `hex::encode`
  function Encode(b: bytes): (s: string)
    ensures |s| == 2 * |b|
  {
    if b == [] then [] else PrintByte(b[0]) + Encode(b[1..])
  }

  // `hex::decode`
  function Decode(s: string): (b: Option<bytes>)
    ensures b.Some? ==> |s| == 2 * |b.value|
  {
    if s == "" then Some([])
    else if |s| == 1 then None
    else
      match (ReadByte(s[0], s[1]), Decode(s[2..]))
      case (Some(first), Some(rest)) => Some([first] + rest)
      case _ => None
  }

  // `hex_decode`: a leading zero for an odd length
  function DecodePadded(s: string): Option<bytes> {
    if |s| % 2 != 0 then Decode("0" + s) else Decode(s)
  }

  lemma ByteRoundTrip(b: byte)
    ensures ReadByte(PrintByte(b)[0], PrintByte(b)[1]) == Some(b)
  {
    DigitRoundTrip(b as nat / 16);
    DigitRoundTrip(b as nat % 16);
  }

  lemma {:induction false} HexRoundTrip(b: bytes)
    ensures Decode(Encode(b)) == Some(b) && DecodePadded(Encode(b)) == Some(b)
  {
    hide PrintByte, ReadByte;
    if b != [] {
      HexRoundTrip(b[1..]);
      ByteRoundTrip(b[0]);
      assert Encode(b)[2..] == Encode(b[1..]);
      assert b == [b[0]] + b[1..];
    }
  }

  // What the digits mean: two for a byte, the high one first, in lower case.
  lemma {:induction false} EncodeDigits(b: bytes, i: nat)
    requires i < |b|
    ensures Encode(b)[2 * i] == "0123456789abcdef"[b[i] as nat / 16]
    ensures Encode(b)[2 * i + 1] == "0123456789abcdef"[b[i] as nat % 16]
  {
    if i > 0 {
      EncodeDigits(b[1..], i - 1);
      assert Encode(b)[2..] == Encode(b[1..]);
    }
  }

  lemma DigitsExact(c: char, v: nat)
    ensures ValueOf(c) == Some(v) <==> v < 16 && (c == "0123456789abcdef"[v] || c == "0123456789ABCDEF"[v])
  {
    if v < 10 {
      assert c == "0123456789"[v] <==> c as nat == 48 + v;
    }
  }

  ghost predicate AllDigits(s: string) {
    forall i :: 0 <= i < |s| ==> ValueOf(s[i]).Some?
  }

  // The number a string of digits writes.
  ghost function HexNat(s: string): nat
    requires AllDigits(s)
  {
    if s == [] then 0 else 16 * HexNat(s[..|s| - 1]) + ValueOf(s[|s| - 1]).value
  }

  ghost function Joined(a: Option<bytes>, b: Option<bytes>): Option<bytes> {
    if a.Some? && b.Some? then Some(a.value + b.value) else None
  }

  lemma {:induction false} DecodeSplit(a: string, b: string)
    requires |a| % 2 == 0
    ensures Decode(a + b) == Joined(Decode(a), Decode(b))
    decreases |a|
  {
    hide ReadByte;
    if a == "" {
      assert a + b == b;
      if Decode(b).Some? { assert [] + Decode(b).value == Decode(b).value; }
    } else {
      DecodeSplit(a[2..], b);
      assert (a + b)[2..] == a[2..] + b;
      var first, rest, last := ReadByte(a[0], a[1]), Decode(a[2..]), Decode(b);
      if first.Some? && rest.Some? && last.Some? {
        assert [first.value] + (rest.value + last.value) == ([first.value] + rest.value) + last.value;
      }
    }
  }

  // Decoded are exactly the even strings of digits, to the bytes of the number they write.
  lemma {:induction false} DecodeExact(s: string)
    ensures Decode(s).Some? <==> |s| % 2 == 0 && AllDigits(s)
    ensures Decode(s).Some? ==> BeNat(Decode(s).value) == HexNat(s)
    decreases |s|
  {
    if |s| == 1 {
    } else if s != "" {
      var front, last := s[..|s| - 2], s[|s| - 2..];
      assert s == front + last && last == [s[|s| - 2], s[|s| - 1]];
      DecodeExact(front);
      DecodePair(last);
      if |s| % 2 == 0 {
        DecodeSplit(front, last);
        DigitsSplit(front, last);
        if Decode(s).Some? {
          var b := Decode(front).value;
          assert (b + Decode(last).value)[..|b|] == b;
          assert s[..|s| - 1] == front + [last[0]] && s[..|s| - 1][..|s| - 2] == front;
        }
      }
    }
  }

  lemma DecodePair(s: string)
    requires |s| == 2
    ensures Decode(s).Some? <==> AllDigits(s)
    ensures Decode(s).Some? ==> Decode(s).value[0] as nat == 16 * ValueOf(s[0]).value + ValueOf(s[1]).value
  {
    assert s[2..] == "" && Decode("") == Some([]);
    assert forall b: byte :: [b] + [] == [b];
  }

  lemma DigitsSplit(a: string, b: string)
    ensures AllDigits(a + b) <==> AllDigits(a) && AllDigits(b)
  {
    var s := a + b;
    assert forall i :: 0 <= i < |a| ==> s[i] == a[i];
    assert forall i :: 0 <= i < |b| ==> s[|a| + i] == b[i];
  }

  lemma {:induction false} LeadingNoughts(k: nat, s: string)
    requires AllDigits(s)
    ensures AllDigits(Noughts(k) + s) && HexNat(Noughts(k) + s) == HexNat(s)
    decreases k + |s|
  {
    var all := Noughts(k) + s;
    DigitsSplit(Noughts(k), s);
    if s != "" {
      assert all[..|all| - 1] == Noughts(k) + s[..|s| - 1];
      LeadingNoughts(k, s[..|s| - 1]);
    } else if k > 0 {
      assert all[..k - 1] == Noughts(k - 1) + "";
      LeadingNoughts(k - 1, "");
    }
  }

  // With the leading zero, strings of any length.
  lemma DecodePaddedExact(s: string)
    ensures DecodePadded(s).Some? <==> AllDigits(s)
    ensures DecodePadded(s).Some? ==> BeNat(DecodePadded(s).value) == HexNat(s)
  {
    hide Decode, BeNat, HexNat, AllDigits;
    DecodeExact(s);
    DecodeExact("0" + s);
    assert "0" == Noughts(1);
    DigitsSplit("0", s);
    if AllDigits(s) { LeadingNoughts(1, s); }
  }

  // `HexU32Be`: eight digits out, at most eight in.
  function PrintWord(n: nat): (s: string)
    ensures |s| == 8
  {
    Encode(BeBytes(n, 4))
  }

  function Noughts(k: nat): (s: string)
    ensures |s| == k
  {
    seq(k, _ => '0')
  }

  // The length subtraction underflows past eight characters.
  function ParseWord(s: string): Parsed<nat> {
    if |s| > 8 then Panics
    else
      match Decode(Noughts(8 - |s|) + s)
      case None => Malformed
      case Some(b) => Ok(BeNat(b))
  }

  // `TryFrom<&str> for HexU32Be`
  method ParseHexU32Be(value: string) returns (r: Parsed<nat>)
    ensures r == ParseWord(value)
  {
    if |value| > 8 {
      return Panics;
    }
    var prefix := "";
    for i := 0 to 8 - |value|
      invariant prefix == Noughts(i)
    {
      prefix := prefix + ['0'];
    }
    prefix := prefix + value;
    match Decode(prefix) {
      case None => r := Malformed;
      case Some(b) => r := Ok(BeNat(b));
    }
  }

  lemma WordRoundTrip(n: nat)
    requires n < U32
    ensures ParseWord(PrintWord(n)) == Ok(n)
  {
    HexRoundTrip(BeBytes(n, 4));
    assert Noughts(0) + PrintWord(n) == PrintWord(n);
    Widths();
    BeNatOfBeBytes(n, 4);
  }

  // A word is what up to eight digits write, and longer strings are not survived.
  lemma WordExact(s: string, n: nat)
    ensures ParseWord(s) == Ok(n) <==> |s| <= 8 && AllDigits(s) && n == HexNat(s)
    ensures ParseWord(s) == Panics <==> |s| > 8
  {
    hide ParseWord, HexNat, AllDigits;
    if |s| > 8 {
      WordTooLong(s);
    } else if AllDigits(s) {
      WordOfDigits(s);
    } else {
      WordOfOthers(s);
    }
  }

  lemma WordTooLong(s: string)
    requires |s| > 8
    ensures ParseWord(s) == Panics
  {
  }

  lemma WordOfDigits(s: string)
    requires |s| <= 8 && AllDigits(s)
    ensures ParseWord(s) == Ok(HexNat(s))
  {
    hide Decode, BeNat, HexNat, AllDigits, Noughts;
    var padded := Noughts(8 - |s|) + s;
    LeadingNoughts(8 - |s|, s);
    DecodeExact(padded);
  }

  lemma WordOfOthers(s: string)
    requires |s| <= 8 && !AllDigits(s)
    ensures ParseWord(s) == Malformed
  {
    hide Decode, BeNat, HexNat, AllDigits, Noughts;
    DigitsSplit(Noughts(8 - |s|), s);
    DecodeExact(Noughts(8 - |s|) + s);
  }

  // A parsed word fits in 32 bits.
  lemma WordFits(s: string)
    ensures ParseWord(s).Ok? ==> ParseWord(s).value < U32
  {
    Widths();
  }

  // `as u32`
  function WordOf(n: nat): Word {
    (n % U32) as Word
  }

  function PrintU32(w: Word): (s: string)
    ensures |s| == 8
  {
    PrintWord(w as nat)
  }

  function ParseU32(s: string): Parsed<Word> {
    var n :- ParseWord(s);
    WordFits(s);
    Ok(n as Word)
  }

  lemma U32RoundTrip(w: Word)
    ensures ParseU32(PrintU32(w)) == Ok(w)
  {
    hide PrintWord, ParseWord;
    WordRoundTrip(w as nat);
  }

  // Leading zeros do not matter.
  lemma WordPadded(s: string)
    requires |s| < 8
    ensures ParseWord("0" + s) == ParseWord(s)
  {
    assert Noughts(8 - |"0" + s|) + ("0" + s) == Noughts(8 - |s|) + s;
  }

  // The previous hash: the four bytes of each word the other way round.
  function SwapWords(b: bytes): (r: bytes)
    requires |b| == 32
    ensures |r| == 32
  {
    seq(32, i requires 0 <= i < 32 => b[4 * (i / 4) + 3 - i % 4])
  }

  lemma SwapTwice(b: bytes)
    requires |b| == 32
    ensures SwapWords(SwapWords(b)) == b
  {
    forall i | 0 <= i < 32
      ensures SwapWords(SwapWords(b))[i] == b[i]
    {
      var j := 4 * (i / 4) + 3 - i % 4;
      assert j / 4 == i / 4 && j % 4 == 3 - i % 4;
    }
  }

  // A word read in one order and written in the other is reversed.
  lemma WordSwapped(b: bytes)
    requires |b| == 4
    ensures LeBytes(BeNat(b), 4) == Reverse(b)
    ensures BeBytes(LeNat(b), 4) == Reverse(b)
  {
    BeBytesOfBeNat(b);
    LeBytesOfLeNat(b);
    assert Reverse(Reverse(LeBytes(BeNat(b), 4))) == LeBytes(BeNat(b), 4);
  }

  // `TryFrom<&str> for PrevHash`
  function ParsePrevHash(s: string): Parsed<bytes> {
    match DecodePadded(s)
    case None => Malformed
    // the length error has no place in the parser's error type
    case Some(b) => if |b| == 32 then Ok(SwapWords(b)) else Panics
  }

  function PrintPrevHash(b: bytes): string
    requires |b| == 32
  {
    Encode(SwapWords(b))
  }

  method PrevHashFromHex(value: string) returns (r: Parsed<bytes>)
    ensures r == ParsePrevHash(value)
  {
    match DecodePadded(value) {
      case None => return Malformed;
      case Some(order) =>
        if |order| != 32 {
          return Panics;
        }
        var out: bytes := [];
        for w := 0 to 8
          invariant out == SwapWords(order)[..4 * w]
        {
          var chunk := order[4 * w..4 * w + 4];
          var word := BeNat(chunk);
          out := out + LeBytes(word, 4);
          WordSwapped(chunk);
          SwappedChunk(order, w);
        }
        r := Ok(out);
        assert SwapWords(order)[..32] == SwapWords(order);
    }
  }

  lemma SwappedChunk(b: bytes, w: nat)
    requires |b| == 32 && w < 8
    ensures SwapWords(b)[..4 * (w + 1)] == SwapWords(b)[..4 * w] + Reverse(b[4 * w..4 * w + 4])
  {
  }

  // Each word is written in the other byte order, and stays where it is.
  lemma PrevHashWords(s: string, b: bytes, w: nat)
    requires |b| == 32 && w < 8
    ensures ParsePrevHash(s).Ok? <==> DecodePadded(s).Some? && |DecodePadded(s).value| == 32
    ensures ParsePrevHash(s).Malformed? <==> !AllDigits(s)
    ensures ParsePrevHash(s).Ok? ==>
              && |ParsePrevHash(s).value| == 32
              && LeNat(ParsePrevHash(s).value[4 * w..4 * w + 4]) == BeNat(DecodePadded(s).value[4 * w..4 * w + 4])
    ensures var printed := Decode(PrintPrevHash(b));
            printed.Some? && |printed.value| == 32 &&
            BeNat(printed.value[4 * w..4 * w + 4]) == LeNat(b[4 * w..4 * w + 4])
  {
    hide Decode, Encode, LeNat, BeNat, AllDigits;
    DecodePaddedExact(s);
    if ParsePrevHash(s).Ok? { SwapWord(DecodePadded(s).value, w); }
    HexRoundTrip(SwapWords(b));
    SwapWord(SwapWords(b), w);
    SwapTwice(b);
  }

  lemma SwapWord(b: bytes, w: nat)
    requires |b| == 32 && w < 8
    ensures LeNat(SwapWords(b)[4 * w..4 * w + 4]) == BeNat(b[4 * w..4 * w + 4])
  {
    var chunk := b[4 * w..4 * w + 4];
    assert SwapWords(b)[4 * w..4 * w + 4] == Reverse(chunk);
    LeNatOfReverse(chunk);
  }

  method PrevHashToHex(v: bytes) returns (s: string)
    requires |v| == 32
    ensures s == PrintPrevHash(v)
  {
    var out: bytes := [];
    for w := 0 to 8
      invariant out == SwapWords(v)[..4 * w]
    {
      var chunk := v[4 * w..4 * w + 4];
      var word := LeNat(chunk);
      out := out + BeBytes(word, 4);
      WordSwapped(chunk);
      SwappedChunk(v, w);
    }
    s := Encode(out);
    assert SwapWords(v)[..32] == SwapWords(v);
  }

  lemma PrevHashRoundTrip(b: bytes)
    requires |b| == 32
    ensures ParsePrevHash(PrintPrevHash(b)) == Ok(b)
  {
    HexRoundTrip(SwapWords(b));
    SwapTwice(b);
  }

  // `Extranonce` from plain bytes: over 32 the error has no place in the parser's error type.
  function ToExtranonce(b: bytes): Parsed<bytes> {
    if |b| <= 32 then Ok(b) else Panics
  }

  function FromHex(b: Option<bytes>): Parsed<bytes> {
    match b
    case None => Malformed
    case Some(b) => Ok(b)
  }

  // A node of the Merkle branch: any other length is unwrapped.
  function ParseNode(s: string): Parsed<bytes> {
    var b :- FromHex(DecodePadded(s));
    if |b| == 32 then Ok(b) else Panics
  }

  // Masks, bit by bit.

  function Bits(w: Word): bv32 {
    w as bv32
  }

  predicate Bit(x: bv32, i: bv6)
    requires i < 32
  {
    (x >> i) & 1 == 1
  }

  // `check_mask`
  predicate CheckMask(mask: bv32, bits: bv32) {
    !mask & bits == 0
  }

  // Bit by bit: every bit set is one the mask allows.
  ghost predicate Contained(mask: bv32, bits: bv32) {
    forall i: bv6 | i < 32 :: Bit(bits, i) ==> Bit(mask, i)
  }

  lemma BitOutside(mask: bv32, bits: bv32, i: bv6)
    requires i < 32
    ensures Bit(!mask & bits, i) <==> Bit(bits, i) && !Bit(mask, i)
  {
  }

  lemma NoBits(x: bv32)
    requires !Bit(x, 0) && !Bit(x, 1) && !Bit(x, 2) && !Bit(x, 3) && !Bit(x, 4) && !Bit(x, 5) && !Bit(x, 6) &&
             !Bit(x, 7)
    requires !Bit(x, 8) && !Bit(x, 9) && !Bit(x, 10) && !Bit(x, 11) && !Bit(x, 12) && !Bit(x, 13) && !Bit(x, 14) &&
             !Bit(x, 15)
    requires !Bit(x, 16) && !Bit(x, 17) && !Bit(x, 18) && !Bit(x, 19) && !Bit(x, 20) && !Bit(x, 21) && !Bit(x, 22) &&
             !Bit(x, 23)
    requires !Bit(x, 24) && !Bit(x, 25) && !Bit(x, 26) && !Bit(x, 27) && !Bit(x, 28) && !Bit(x, 29) && !Bit(x, 30) &&
             !Bit(x, 31)
    ensures x == 0
  {
  }

  lemma CheckMaskExact(mask: bv32, bits: bv32)
    ensures CheckMask(mask, bits) <==> Contained(mask, bits)
  {
    var x := !mask & bits;
    forall i: bv6 | i < 32
      ensures Bit(x, i) <==> Bit(bits, i) && !Bit(mask, i)
    {
      BitOutside(mask, bits, i);
    }
    if Contained(mask, bits) {
      hide Bit;
      NoBits(x);
    } else {
      var i: bv6 :| i < 32 && Bit(bits, i) && !Bit(mask, i);
      assert Bit(x, i);
    }
  }

  // `VersionRollingParams::new`: the head and tail checks come after the mask was cut to the bits
  // that BIP 320 frees, so they never fail.
  function Negotiate(mask: bv32): Option<bv32> {
    var negotiated := mask & 0x1FFFE000;
    if negotiated >> 29 == 0 && negotiated << 19 == 0 then Some(negotiated) else None
  }

  lemma NegotiateTotal(mask: bv32)
    ensures Negotiate(mask).Some?
    ensures CheckMask(mask, Negotiate(mask).value) && CheckMask(0x1FFFE000, Negotiate(mask).value)
    ensures forall bits: bv32 :: CheckMask(mask, bits) && CheckMask(0x1FFFE000, bits) ==>
            CheckMask(Negotiate(mask).value, bits)
  {
  }
}
