/** Sv2 frames: section 3.2 of the Stratum V2 specification. */
module Framing {
  import opened Bytes

  const HEADER_SIZE: nat := 6
  const AEAD_MAC_LEN: nat := 16
  const ENCRYPTED_HEADER_SIZE: nat := HEADER_SIZE + AEAD_MAC_LEN
  const CHUNK_SIZE: nat := 65535
  // What one chunk carries besides its MAC.
  const PIECE_SIZE: nat := CHUNK_SIZE - AEAD_MAC_LEN

  // The most significant bit of the extension type.
  const CHANNEL_BIT: u16 := 0x8000

  newtype u16 = x: int | 0 <= x < 0x1_0000
  newtype u24 = x: int | 0 <= x < 0x100_0000

  datatype Header = Header(extensionType: u16, msgType: byte, msgLength: u24) {

    function ToBytes(): (b: bytes)
      ensures |b| == HEADER_SIZE
    {
      LeBytes(extensionType as nat, 2) + [msgType] + LeBytes(msgLength as nat, 3)
    }

    static function FromBytes(b: bytes): (h: Option<Header>)
      ensures h.Some? <==> |b| >= HEADER_SIZE
    {
      if |b| < HEADER_SIZE then None
      else Some(Header(DeclaredExtension(b), b[2], DeclaredLen(b) as u24))
    }

    // `from_len`: none when the length does not fit in 24 bits.
    static function FromLen(msgLength: nat, msgType: byte, extensionType: u16): (h: Option<Header>) {
      if msgLength < 0x100_0000 then Some(Header(extensionType, msgType, msgLength as u24)) else None
    }

    predicate ChannelMsg() {
      extensionType >= CHANNEL_BIT
    }
  }

  // Reading back a printed header, whatever follows it.
  lemma HeaderRoundTrip(h: Header, rest: bytes)
    ensures Header.FromBytes(h.ToBytes() + rest) == Some(h)
  {
    var b := h.ToBytes() + rest;
    assert Pow256(2) == 0x1_0000 && Pow256(3) == 0x100_0000;
    LeNatOfLeBytes(h.extensionType as nat, 2);
    LeNatOfLeBytes(h.msgLength as nat, 3);
    assert b[..2] == LeBytes(h.extensionType as nat, 2);
    assert b[3..6] == LeBytes(h.msgLength as nat, 3);
  }

  // The six bytes: extension type, message type and length, the numbers least significant byte first.
  lemma HeaderLayout(h: Header, b: bytes)
    ensures var printed := h.ToBytes();
            && |printed| == 6 && LeNat(printed[..2]) == h.extensionType as nat && printed[2] == h.msgType
            && LeNat(printed[3..]) == h.msgLength as nat
    ensures |b| >= 6 ==>
              && Header.FromBytes(b).Some?
              && var read := Header.FromBytes(b).value;
                 && read.extensionType as nat == LeNat(b[..2]) && read.msgType == b[2]
                 && read.msgLength as nat == LeNat(b[3..6])
  {
    var printed := h.ToBytes();
    assert Pow256(2) == 0x1_0000 && Pow256(3) == 0x100_0000;
    LeNatOfLeBytes(h.extensionType as nat, 2);
    LeNatOfLeBytes(h.msgLength as nat, 3);
    assert printed[..2] == LeBytes(h.extensionType as nat, 2) && printed[3..] == LeBytes(h.msgLength as nat, 3);
  }

  // `encrypted_len`: the payload with one MAC for each chunk it is cut into.
  function EncryptedLen(len: nat): nat {
    len + Chunks(len) * AEAD_MAC_LEN
  }

  function Chunks(len: nat): nat {
    len / PIECE_SIZE + if len % PIECE_SIZE != 0 then 1 else 0
  }

  // The payload length a serialized frame declares.
  function DeclaredLen(raw: bytes): (len: nat)
    requires |raw| >= HEADER_SIZE
    ensures len < 0x100_0000
  {
    assert Pow256(3) == 0x100_0000;
    LeNat(raw[3..6])
  }

  function DeclaredExtension(raw: bytes): u16
    requires |raw| >= HEADER_SIZE
  {
    assert Pow256(2) == 0x1_0000;
    LeNat(raw[..2]) as u16
  }

  // A payload stands for the message by its serialization.
  datatype Sv2Frame =
    | Message(header: Header, payload: bytes)
    | Serialized(header: Header, raw: bytes)
  {
    // What `serialize` writes.
    function Raw(): bytes {
      match this
      case Message(header, payload) => header.ToBytes() + payload
      case Serialized(_, raw) => raw
    }

    function EncodedLength(): (n: nat)
      ensures n == |Raw()|
    {
      match this
      case Message(_, payload) => |payload| + HEADER_SIZE
      case Serialized(_, raw) => |raw|
    }

    // What every constructor of frames leaves true.
    predicate Valid() {
      Serialized? ==> Header.FromBytes(raw) == Some(header)
    }

    // The declared length is the length of the payload.
    predicate WellFormed() {
      Valid() && header.msgLength as nat == |Raw()| - HEADER_SIZE
    }
  }

  // The frames there are: `from_message`, `from_bytes` and `from_bytes_unchecked` build no others.
  type BuiltFrame = f: Sv2Frame | f.Valid() witness Message(Header(0, 0, 0), [])

  datatype Frame = HandShake(payload: bytes) | Sv2(frame: Sv2Frame)

  // A serialized frame whose header declares the length of its payload.
  ghost predicate Declares(raw: bytes) {
    |raw| >= HEADER_SIZE && DeclaredLen(raw) == |raw| - HEADER_SIZE
  }

  ghost predicate AllWellFormed(frames: seq<Sv2Frame>) {
    forall i :: 0 <= i < |frames| ==> frames[i].WellFormed()
  }

  function FromBytesUnchecked(raw: bytes): (f: Sv2Frame)
    requires |raw| >= HEADER_SIZE
    ensures f.Valid() && f.Raw() == raw
  {
    Serialized(Header.FromBytes(raw).value, raw)
  }

  lemma ValidFrameHeader(f: Sv2Frame)
    requires f.Valid()
    ensures |f.Raw()| >= HEADER_SIZE && Header.FromBytes(f.Raw()) == Some(f.header)
    ensures Declares(f.Raw()) <==> f.WellFormed()
  {
    if f.Message? {
      HeaderRoundTrip(f.header, f.payload);
    }
  }

  // `size_hint`
  function SizeHint(b: bytes): int {
    match Header.FromBytes(b)
    case None => HEADER_SIZE - |b|
    case Some(header) =>
      if |b| - HEADER_SIZE == header.msgLength as nat then 0
      else |b| - HEADER_SIZE + header.msgLength as nat
  }

  function FromBytes(b: bytes): (r: Option<Sv2Frame>) {
    if SizeHint(b) == 0 then Some(FromBytesUnchecked(b)) else None
  }

  // A frame is taken exactly when its header declares the length of what follows.
  lemma FromBytesExact(b: bytes)
    ensures FromBytes(b).Some? <==> |b| >= HEADER_SIZE && DeclaredLen(b) == |b| - HEADER_SIZE
    ensures FromBytes(b).Some? ==> FromBytes(b).value.WellFormed() && FromBytes(b).value.Raw() == b
  {
  }

  // The bytes the header, or else the frame it announces, still lacks; negative for a surplus.
  function MissingBytes(b: bytes): int {
    if |b| < HEADER_SIZE then HEADER_SIZE - |b| else HEADER_SIZE + DeclaredLen(b) - |b|
  }

  // The hint counts the missing bytes only up to a whole header, and at the whole frame.
  lemma SizeHintExact(b: bytes)
    ensures SizeHint(b) == MissingBytes(b) <==> |b| <= HEADER_SIZE || |b| == HEADER_SIZE + DeclaredLen(b)
  {
  }

  // A header announcing two bytes, followed by one: one is missing and the hint says three.
  lemma SizeHintMiscounts()
    ensures SizeHint([0, 0, 0, 2, 0, 0, 7]) == 3 && MissingBytes([0, 0, 0, 2, 0, 0, 7]) == 1
  {
    var b: bytes := [0, 0, 0, 2, 0, 0, 7];
    assert b[3..6] == [2, 0, 0];
    assert LeNat([2, 0, 0]) == 2 by { LeNatOfLeBytes(2, 3); assert LeBytes(2, 3) == [2, 0, 0]; }
  }

  // Sets or clears the channel bit, and leaves the other fifteen.
  function UpdateExtensionType(extensionType: u16, channelMsg: bool): (e: u16)
    ensures (e >= 0x8000) == channelMsg
    ensures e % 0x8000 == extensionType % 0x8000
  {
    if channelMsg then extensionType % CHANNEL_BIT + CHANNEL_BIT else extensionType % CHANNEL_BIT
  }

  function FromMessage(payload: bytes, msgType: byte, extensionType: u16, channelMsg: bool): (f: Option<Sv2Frame>)
  {
    // the size is cast to 32 bits
    match Header.FromLen(|payload| % 0x1_0000_0000, msgType, UpdateExtensionType(extensionType, channelMsg))
    case None => None
    case Some(header) => Some(Message(header, payload))
  }

  // A frame comes back exactly when the cast size fits in 24 bits, and is well formed exactly
  // when the size itself does.
  lemma FromMessageExact(payload: bytes, msgType: byte, extensionType: u16, channelMsg: bool)
    ensures var f := FromMessage(payload, msgType, extensionType, channelMsg);
            && (f.Some? <==> |payload| % 0x1_0000_0000 < 0x100_0000)
            && (f.Some? ==> (f.value.WellFormed() <==> |payload| < 0x100_0000))
  {
  }

  // Type, channel bit, extension bits and payload survive the wire.
  lemma FromMessageSurvives(payload: bytes, msgType: byte, extensionType: u16, channelMsg: bool)
    requires |payload| < 0x100_0000
    ensures var f := FromMessage(payload, msgType, extensionType, channelMsg);
            && f.Some? && f.value.Raw()[HEADER_SIZE..] == payload
            && Header.FromBytes(f.value.Raw()) == Some(f.value.header)
            && f.value.header.msgType == msgType
            && f.value.header.ChannelMsg() == channelMsg
            && f.value.header.extensionType % CHANNEL_BIT == extensionType % CHANNEL_BIT
  {
    ValidFrameHeader(FromMessage(payload, msgType, extensionType, channelMsg).value);
  }

  // A message of 2^32 bytes is framed as an empty one.
  lemma FromMessageWraps()
    ensures var f := FromMessage(Zeros(0x1_0000_0000), 0, 0, false);
            f.Some? && f.value.header.msgLength == 0 && !f.value.WellFormed()
  {
  }

  // The sizes in numbers: 65519 bytes of payload to a chunk of 65535, 16 of them the MAC.
  lemma Sizes(len: nat)
    ensures ENCRYPTED_HEADER_SIZE == 22
    ensures exists chunks: nat ::
              EncryptedLen(len) == len + 16 * chunks && 65519 * chunks - 65519 < len <= 65519 * chunks
  {
    var chunks := Chunks(len);
    assert EncryptedLen(len) == len + 16 * chunks;
    assert 65519 * chunks - 65519 < len <= 65519 * chunks;
  }

  // One full chunk more: the encoder's cut and the decoder's cut move together.
  lemma EncryptedLenStep(len: nat)
    ensures 0 < len <= PIECE_SIZE ==> EncryptedLen(len) == len + AEAD_MAC_LEN <= CHUNK_SIZE && Chunks(len) == 1
    ensures len > PIECE_SIZE ==>
              EncryptedLen(len) == CHUNK_SIZE + EncryptedLen(len - PIECE_SIZE) &&
              Chunks(len) == 1 + Chunks(len - PIECE_SIZE)
  {
  }

  // Different payload lengths never share an encrypted length.
  lemma EncryptedLenStrict(a: nat, b: nat)
    requires a < b
    ensures EncryptedLen(a) < EncryptedLen(b)
  {
    assert a / PIECE_SIZE <= b / PIECE_SIZE;
    if a / PIECE_SIZE == b / PIECE_SIZE {
      assert a % PIECE_SIZE < b % PIECE_SIZE;
    }
  }
}
