# Hashpool, verified in Dafny

A Dafny 4.11 model of the parts of this Stratum V2 mining pool whose correctness spans several
functions or a whole run, with proofs. `dafny verify dfyconfig.toml` verifies everything.

- **The encrypted Sv2 channel.** `Buffer` (a vector with a write cursor and a movable AEAD window),
  `Cipher`, `Framing`, `Codec` (encoder and decoder working in place), `Handshake` and `Roles` (the
  NX handshake) model the code as classes and loops, each proved against functions on values
  (`Transport`, `Sym`, `Act1` to `Act3`). `Channel` is one direction as a step system: an encoder,
  a FIFO byte pipe and the read loop of `noise_stream.rs`; `Misdeclared` says what becomes of it when
  a header lies about its payload; `NoiseStream` runs the loop on the objects. `Connection` puts
  handshake and both directions together: `SecureChannel` and `SecureChannelExactly` are the main
  theorems, over every interleaving. `Conduits` and `Peers` run handshake and interleavings on the
  objects themselves: `Replay`, `Converse`.
- **The plain codec** (`PlainCodec`): encoder, decoder and read loop without encryption.
- **Coinbase and work.** `Bitcoin` and `Bip141` (stripping the witness data of a split coinbase),
  `Merkle` (the path fold against the full tree), `Target` (the 256-bit division) and `Work` (ehash
  for leading zero bits).
- **Stratum V1.** `Hex`, `Sv1Requests`, `Sv1Responses` and `Sv1Methods` print, parse and classify
  messages; `Sv1Client` and `Sv1Server` are the two state machines, as objects and as step
  functions, with safety over whole runs (`History` says which setting of a run holds).
- **Keysets and the stats services.** `Keyset` (wire form and CDK conversions) and `LineSplitter`
  (the newline splitter).

Bytes are integers below 256, other integers are unbounded, with every cast, wrap and bound of the
code written out. `Bytes` holds the fixed-width integers.

## What is assumed

- SHA-256, ChaCha20-Poly1305, ElligatorSwift key agreement and Schnorr signatures are one unknown
  constant `Crypto.FOREIGN`, of which only these laws are used: decryption undoes encryption under
  equal key, nonce and associated data; a ciphertext is 16 bytes longer, and encryption fails just
  above the limit of section 2.8 of RFC 8439; key agreement commutes; a signature verifies; an
  encoding keeps its x-only key; the output lengths. `TrivialAnswer` shows that the laws are
  consistent. Nothing is said about cryptographic strength.
- The random keys, the clock and the auxiliary randomness of signatures are parameters.
- Record counters stay below 2^64 - 1, and the end of a certificate's time below 2^32: the code adds
  with overflow there.
- `Bitcoin` follows the `bitcoin` library's consensus encoding as BIP 144 has it. That the two ids of
  a transaction without inputs differ is the hypothesis `Distinguishable`; were it false, double
  SHA-256 would collide.
- Which points, keyset ids and key digests the CDK accepts or computes is unknown (`ON_CURVE`,
  `KNOWN_ID`, `V1_FROM_KEYS`).
- The handlers that an implementor of the V1 client or server supplies are parameters of each step;
  setters store what they are given and getters return it.

## What turned out false, and what holds instead

- `size_hint` does not follow its comment between a whole header and a whole frame:
  `SizeHintMiscounts`, `SizeHintExact`. The decoder calls it only where it is right.
- `from_message` casts the size to 32 bits: `FromMessageWraps`, `FromMessageExact`.
- A frame that the unchecked constructor makes and the encoder seals does not always arrive:
  `FalseFrameLost`; it can if and only if its header declares its length: `ArrivesExactly`,
  `EveryRunDeliversExactly`.
- A plain connection does not deliver every frame the encoder takes. One that declares 3363412 payload
  bytes is taken for a noise message, and one that misdeclares its length does not arrive:
  `PlainHangsUp`, `PlainFalseFrame`. All arrive if and only if there is neither: `PlainRoundTrip`.
- Stripping a stripped coinbase again does not always return "nothing to do": `RestripMayFail`; when
  it does is `RestripExact`, for every script; it never cuts again: `RestripNeverCuts`.
- At the largest 128-bit work the target is not optimal in a build whose additions wrap (a checked
  build panics there): `OptimalExactly`, `WrappedQuotient`.
- A V1 client may send requests without ever having had a configure response:
  `SubscribeAnswerOpens`; exactly when it may is `SendsOnlyWhenOpen`.
- A V1 configure request does not always survive print and parse, and a version mask notification
  never does: `ConfigureRoundTripExactly`, `NoticesRead`.
- A keyset does not keep a foreign id on the wire, nor a short id, unit and expiry through Sv2:
  `KeysetWireRoundTrip`, `CdkRoundTrip`. Wire bytes with other parity bytes than 0 and 1 are read but
  not printed back: `WireRoundTripBack`.

## Model

| member | source | states |
|---|---|---|
| Connection.SecureChannel | protocols/v2/codec-sv2/src/encoder.rs:139-189 | for all keys, an unaltered handshake whose certificate the initiator trusts connects, and then, for every interleaving of sends, partial reads and decoder calls on both directions whose frames declare their lengths, nothing fails and each decoder has put out a byte-identical, in-order prefix of the frames the peer's encoder took |
| Connection.SecureChannelExactly | protocols/v2/codec-sv2/src/decoder.rs:142-300 | the same without any hypothesis on the frames: each direction delivers exactly the frames before its first one that misdeclares its length, and what comes out after them is never that frame |
| Connection.DirectionsIndependent | roles/roles-utils/network-helpers/src/noise_stream.rs:222-260 | any interleaving of the two directions leaves each as if it had run alone on its own events |
| Connection.HandshakeMessageRead | protocols/v2/codec-sv2/src/decoder.rs:145-157 | a fresh decoder asks for exactly the handshake message, hands it out unchanged, and then asks for two bytes |
| Peers.Converse | roles/roles-utils/network-helpers/src/noise_stream.rs:72-158 | the objects from nothing: encoders, decoders and role objects made afresh, the handshake carried through them, and then any interleaving of sends, partial reads and decoder calls of both directions on the objects delivers what `SecureChannelExactly` and `SecureChannel` say |
| Peers.Connect | roles/roles-utils/network-helpers/src/noise_stream.rs:72-158 | the three steps on the role objects, messages carried by encoders and decoders, leave codecs with crossed keys and counters 0 and decoders ready for a frame |
| Peers.Negotiate | roles/roles-utils/network-helpers/src/noise_stream.rs:72-158 | both handshake messages arrive as sent, and the roles are in the states of the first two steps |
| Peers.Deliver | protocols/v2/codec-sv2/src/lib.rs:257-264 | a handshake message of exactly the length the decoder's phase expects goes through encoder and decoder objects unchanged, leaving a hint of two |
| Peers.Greet | protocols/v2/codec-sv2/src/lib.rs:262-262 | the first message arrives at a decoder that expects the constant 64 |
| Peers.Reply | protocols/v2/codec-sv2/src/lib.rs:259-261 | the answer arrives at a decoder that expects the constant 234 |
| Peers.Conclude | roles/roles-utils/network-helpers/src/noise_stream.rs:98-99 | the initiator's last step always connects here, with the responder's keys crossed |
| Peers.Open | roles/roles-utils/network-helpers/src/noise_stream.rs:144-158 | two ends with crossed keys make two directions whose objects are disjoint, in the state the value model starts from |
| Conduits.Replay | roles/roles-utils/network-helpers/src/noise_stream.rs:175-260 | the objects of both directions go through every interleaving as the value model does: what one direction does never shows in the other |
| Conduits.Advance | roles/roles-utils/network-helpers/src/noise_stream.rs:175-260 | one event of one direction on the objects is that step of the value model, and the other direction is untouched |
| Conduits.StepKeepsFramed | protocols/v2/codec-sv2/src/decoder.rs:160-185 | on any bytes, under any keys, every step leaves the decoder in a state in which no subtraction of lengths underflows |
| Conduits.Conduit.Send | protocols/v2/codec-sv2/src/encoder.rs:139-189 | every frame the encoder can be given is sealed onto the wire |
| Conduits.Conduit.Read | roles/roles-utils/network-helpers/src/noise_stream.rs:222-260 | some bytes of the current request arrive, never more than it asks for |
| Conduits.Conduit.Poll | protocols/v2/codec-sv2/src/decoder.rs:142-185 | a filled request is fed and the decoder called: output, waiting, or the end of the direction |
| NoiseStream.Exchange | protocols/v2/codec-sv2/src/encoder.rs:139-189 | on the objects: for every list of frames, encoder, codecs, decoder and read loop of two peers with equal key and counter give back each frame, header and bytes, and the counters stay level |
| NoiseStream.ReadFrame | roles/roles-utils/network-helpers/src/noise_stream.rs:222-260 | the blocking read loop over the decoder object ends with the frame that was sealed, having read its bytes and no others, whatever the first hint up to 22 |
| NoiseStream.Carry | protocols/v2/codec-sv2/src/encoder.rs:139-189 | one frame from one peer's encoder object to the other's decoder object |
| Channel.EveryRunIsSound | roles/roles-utils/network-helpers/src/noise_stream.rs:222-260 | the link invariant (keys, counters, buffered and outstanding bytes, delivered frames) holds after every sequence of sends, reads and calls whose frames declare their lengths, whether the first hint is 0, 2 or 22 |
| Channel.InOrderDelivery | protocols/v2/codec-sv2/src/decoder.rs:142-300 | in every such run no decryption fails, no length subtraction underflows, and the frames put out are, byte for byte, the first frames the encoder was given |
| Channel.RunKeepsSound | protocols/v2/codec-sv2/src/decoder.rs:142-300 | every such run from a sound link ends in a sound link |
| Channel.AcceptedAreSent | protocols/v2/codec-sv2/src/encoder.rs:139-189 | what went out on a link is exactly the list of frames the encoder was given, in order, whatever they declare |
| Channel.SendKeepsGood | protocols/v2/codec-sv2/src/encoder.rs:139-189 | sending any frame, well declared or not, keeps the reader's half of the invariant at any moment, also in the middle of a frame |
| Channel.SendKeepsSender | protocols/v2/codec-sv2/src/encoder.rs:139-189 | and the sender's half: sealed bytes and counters |
| Channel.SendKeepsSound | protocols/v2/codec-sv2/src/encoder.rs:139-189 | so a frame that declares its length keeps a link sound |
| Misdeclared.EveryRunDeliversExactly | protocols/v2/codec-sv2/src/decoder.rs:142-300 | in every run with every frame there is, the output is a prefix of what was sent if and only if it is no longer than the frames before the first false one; up to there nothing fails, and after it the next thing put out is another frame |
| Misdeclared.ArrivesExactly | protocols/v2/codec-sv2/src/decoder.rs:142-300 | a frame behind truthful ones can come out as itself, by some further reads and calls, if and only if its header declares its length |
| Misdeclared.FalseFrameLost | protocols/v2/framing-sv2/src/framing.rs:135-143 | the frame of the bytes 0 0 0 2 0 0 7, which the unchecked constructor makes and the encoder seals, never comes out first |
| Misdeclared.NeverItself | protocols/v2/codec-sv2/src/decoder.rs:271-298 | whatever opens after a header that misdeclares, header and payload are not the frame that was sent |
| Misdeclared.AsksWrong | protocols/v2/framing-sv2/src/header.rs:118-126 | after such a header the next request is never the length of the payload sent |
| Misdeclared.RunKnown | protocols/v2/codec-sv2/src/decoder.rs:142-300 | every run stays in step, in the middle of a false frame, stopped, or astray after one |
| Misdeclared.EverySenderIsSound | protocols/v2/codec-sv2/src/encoder.rs:139-189 | the sender's half of the invariant holds in every run, so its nonces never repeat whatever the frames |
| Channel.PollKeepsGood | protocols/v2/codec-sv2/src/decoder.rs:142-300 | a decoder call whose request was filled keeps the invariant in each of its three situations |
| Channel.PollWaits | protocols/v2/codec-sv2/src/decoder.rs:160-185 | with part of an encrypted header the decoder asks for exactly the rest of the 22 bytes |
| Channel.PollOpensHeader | protocols/v2/codec-sv2/src/decoder.rs:258-270 | the 22 bytes are the sealed header of the next frame, and the next request is its encrypted payload length |
| Channel.PollOpensPayload | protocols/v2/codec-sv2/src/decoder.rs:272-298 | the payload bytes open to the frame that was sent, and the decoder is back to asking for 22 |
| Channel.PacketOpens | protocols/v2/codec-sv2/src/decoder.rs:252-298 | every sealed frame opens at the receiver: header record, declared length, chunk cuts, payload and record count |
| Channel.NonceConservation | protocols/v2/noise-sv2/src/cipher_state.rs:119-164 | while the receiver is in step, sender counter minus receiver counter is the number of records not yet decrypted, and the sender counter is the number of records sent |
| Channel.FrameRecords | protocols/v2/codec-sv2/src/encoder.rs:156-178 | each frame, whatever it declares, uses one record for its header and one for each 65519 bytes or part of them |
| Channel.NoncesNeverRepeat | protocols/v2/noise-sv2/src/cipher_state.rs:89-96 | no two records sent under one key use the same 12-byte nonce, below 2^64 records |
| Channel.NeverReadsAhead | protocols/v2/codec-sv2/src/decoder.rs:142-209 | while the receiver is in step and the next frame declares its length, the outstanding request never reaches a byte of the frame after the current one |
| Channel.ReadsMatchFrames | protocols/v2/codec-sv2/src/decoder.rs:142-209 | when the decoder is between frames, the bytes read are exactly those of the frames put out |
| Channel.EveryFrameArrives | roles/roles-utils/network-helpers/src/noise_stream.rs:222-260 | from every sound link some sequence of reads and calls delivers all frames sent: the loop cannot get stuck |
| Channel.FramesArrive | roles/roles-utils/network-helpers/src/noise_stream.rs:222-260 | the same up to any frame before which all declare their lengths, whatever comes after it |
| Channel.Pump | roles/roles-utils/network-helpers/src/noise_stream.rs:222-260 | one filled request and one call always make progress while a frame is outstanding |
| Transport.OpenSealFrom | protocols/v2/codec-sv2/src/decoder.rs:271-298 | decrypting in 65535-byte pieces undoes encrypting in 65519-byte pieces, for every payload, with as many records |
| Transport.CutAgrees | protocols/v2/codec-sv2/src/encoder.rs:161-178 | the decoder's next cut is where the encoder's next record ends |
| Transport.SealFromAt | protocols/v2/codec-sv2/src/encoder.rs:161-178 | the i-th record is the i-th 65519-byte piece under the i-th counter, at its own place in the ciphertext |
| Transport.SealFromLength | protocols/v2/framing-sv2/src/header.rs:118-126 | the chunk loop emits exactly `encrypted_len` bytes |
| Transport.SealFrameLength | protocols/v2/codec-sv2/src/encoder.rs:156-179 | a sealed frame is 22 + `encrypted_len` bytes |
| Transport.OpenUntilExact | protocols/v2/codec-sv2/src/decoder.rs:271-298 | opening chunk by chunk stops short exactly when the payload does not open, and then at a chunk that does not open under the counter reached, everything before it opened |
| Codec.NoiseEncoder.Encode | protocols/v2/codec-sv2/src/encoder.rs:139-189 | in each phase: the sealed frame with the counter advanced by its records, or the handshake payload, or the phase error; buffers empty again |
| Codec.NoiseEncoder.EncodeTransport | protocols/v2/codec-sv2/src/encoder.rs:141-180 | the wire bytes are `SealFrame` of the serialization under the current counter |
| Codec.NoiseEncoder.EncryptPayload | protocols/v2/codec-sv2/src/encoder.rs:161-180 | the in-place loop over the moving window appends `SealFrom` of the payload, and the counter moves by the piece count |
| Codec.NoiseEncoder.EncryptPiece | protocols/v2/codec-sv2/src/encoder.rs:170-175 | one piece is sealed where it was appended; what was there before is untouched |
| Codec.NoiseEncoder.EncryptHeader | protocols/v2/codec-sv2/src/encoder.rs:156-159 | the header is sealed as one record |
| Codec.NoiseEncoder.Serialize | protocols/v2/framing-sv2/src/framing.rs:80-92 | the slice handed out holds the serialization of the frame |
| Codec.NoiseEncoder.WhileHandshaking | protocols/v2/codec-sv2/src/encoder.rs:199-212 | the payload is copied byte by byte into the buffer |
| Codec.NoiseDecoder.NextFrame | protocols/v2/codec-sv2/src/decoder.rs:142-185 | outcome, hint, buffers and counter are those of `Next`, or of `NextHandshake` before the handshake is over; after a failure, buffers, hint and counter are those of `Aborted` |
| Codec.AbortedExact | protocols/v2/codec-sv2/src/decoder.rs:252-298 | a call fails if and only if what it leaves in the window is a record that does not open under the counter it leaves, after the plaintext already held |
| Codec.NoiseDecoder.DecodeNoiseFrame | protocols/v2/codec-sv2/src/decoder.rs:252-300 | the header and the payload case of `Next` in the windowed buffers, and of `Aborted` on failure |
| Codec.NoiseDecoder.DecodeHeader | protocols/v2/codec-sv2/src/decoder.rs:257-270 | the header record is decrypted in place and the next request is its encrypted payload length |
| Codec.NoiseDecoder.DecryptPayload | protocols/v2/codec-sv2/src/decoder.rs:271-294 | the loop keeps cursor = decrypted length and leaves header plus `OpenFrom` of the payload, or fails exactly when that does and leaves the failing chunk in the window |
| Codec.NoiseDecoder.DecryptPiece | protocols/v2/codec-sv2/src/decoder.rs:284-293 | one chunk is opened at the window, after the plaintext already there |
| Codec.NoiseDecoder.DecodePayload | protocols/v2/codec-sv2/src/decoder.rs:271-298 | the frame put out is the header and the opened payload, and both buffers are empty |
| Codec.NoiseDecoder.Feed | protocols/v2/codec-sv2/src/decoder.rs:207-209 | filling the writable slice appends to the ciphertext held |
| Buffer.SystemBuffer.Replay | utils/buffer/src/buffer.rs:61-122 | over every sequence of allowed calls the vector with cursor and start behaves as a plain byte sequence: the stale bytes never show |
| Buffer.SystemBuffer.GetWritable | utils/buffer/src/buffer.rs:61-76 | the cursor moves at once and the vector grows with zeros only past its length |
| Buffer.SystemBuffer.Write | utils/buffer/src/buffer.rs:61-76 | a filled writable slice is an append |
| Buffer.SystemBuffer.GetDataOwned | utils/buffer/src/buffer.rs:82-94 | takes the bytes up to the cursor and leaves the rest as stale bytes |
| Buffer.SystemBuffer.GetDataByRef | utils/buffer/src/buffer.rs:99-108 | the first bytes written, no more than there are |
| Buffer.SystemBuffer.AsRef | utils/buffer/src/buffer.rs:172-176 | the window from `start` to the cursor |
| Buffer.SystemBuffer.WriteWindow | utils/buffer/src/buffer.rs:182-186 | writing through the window changes just the bytes from `start` |
| Buffer.SystemBuffer.ExtendFromSlice | utils/buffer/src/buffer.rs:191-194 | appends |
| Buffer.SystemBuffer.Truncate | utils/buffer/src/buffer.rs:199-202 | cuts the window to a length and keeps what is before it |
| Buffer.SystemBuffer.DangerSetStart | utils/buffer/src/buffer.rs:120-122 | moves the start and nothing else |
| Cipher.CipherState.EncryptWithAd | protocols/v2/noise-sv2/src/cipher_state.rs:119-138 | seals the window in place with the nonce of the counter, which advances on success and is rolled back on failure |
| Cipher.CipherState.DecryptWithAd | protocols/v2/noise-sv2/src/cipher_state.rs:145-164 | opens the window in place; the counter advances on success and is unchanged on failure |
| Cipher.NoiseCodec.Encrypt | protocols/v2/noise-sv2/src/lib.rs:125-127 | one record under the encryptor, with no associated data |
| Cipher.NoiseCodec.Decrypt | protocols/v2/noise-sv2/src/lib.rs:130-132 | one record under the decryptor, with no associated data |
| Cipher.SealInPlace | protocols/v2/noise-sv2/src/aed_cipher.rs:75-82 | the window becomes the ciphertext and tag, the bytes before it stay |
| Cipher.UnsealInPlace | protocols/v2/noise-sv2/src/aed_cipher.rs:84-91 | the window becomes the plaintext, or nothing changes |
| Crypto.NonceLayout | protocols/v2/noise-sv2/src/cipher_state.rs:89-96 | the nonce of a counter is the one string of four zero bytes followed by the counter, least significant byte first |
| Crypto.NonceBytesInjective | protocols/v2/noise-sv2/src/cipher_state.rs:89-96 | so different 64-bit counters give different nonces |
| Crypto.RecordsBound | protocols/v2/noise-sv2/src/lib.rs:125-132 | a transport record is sealed and opened under its counter's nonce with no associated data |
| Handshake.HmacHash | protocols/v2/noise-sv2/src/handshake.rs:132-154 | the padded-key loops compute HMAC-SHA256 of section 2 of RFC 2104 |
| Handshake.HmacOfBlocks | protocols/v2/noise-sv2/src/handshake.rs:132-154 | the tag is the hash of the key padded against 0x5c and of the hash of the key padded against 0x36 and the data, whatever blocks are padded so |
| Handshake.Hkdf2 | protocols/v2/noise-sv2/src/handshake.rs:170-175 | the two outputs are the first two blocks of sections 2.2 and 2.3 of RFC 5869: the tag of byte 1, and the tag of the first output and byte 2 |
| Handshake.EncryptThenDecrypt | protocols/v2/noise-sv2/src/handshake.rs:211-239 | two sides in one state stay in one state across an encrypted part, and the text comes through |
| Handshake.HandshakeState.InitializeSelf | protocols/v2/noise-sv2/src/handshake.rs:255-261 | chaining key and hash start from the hashed protocol name |
| Handshake.HandshakeState.InitializeKey | protocols/v2/noise-sv2/src/handshake.rs:268-278 | a new key resets the counter |
| Handshake.HandshakeState.MixHash | protocols/v2/noise-sv2/src/handshake.rs:91-97 | only the hash changes, to that of itself and the data |
| Handshake.HandshakeState.MixKey | protocols/v2/noise-sv2/src/handshake.rs:196-201 | chaining key and cipher key become the two HKDF outputs, the counter 0 |
| Handshake.PartsBound | protocols/v2/noise-sv2/src/handshake.rs:211-239 | with a key, a part is sealed and opened under that key, the counter's nonce and the handshake hash so far as associated data, the counter advances by one, and the hash takes in the ciphertext; without one the part passes as it is |
| Handshake.HandshakeState.EncryptAndHash | protocols/v2/noise-sv2/src/handshake.rs:211-220 | seals under the hash as `PartsBound` says, mixes what was sent; a failure leaves the state as it was |
| Handshake.HandshakeState.DecryptAndHash | protocols/v2/noise-sv2/src/handshake.rs:230-239 | opens under the hash as `PartsBound` says, mixes what was received; a failure leaves the state as it was |
| Roles.HandshakeAgrees | protocols/v2/noise-sv2/src/initiator.rs:313-401 | for all ephemeral, static and authority keys the three steps on unaltered messages leave both roles with the same state, whose hash and chaining key are those of section 4.5 of the Stratum V2 specification, with crossed codec keys; the static key is sealed under the first derived key and the hash of everything said before it, the certificate under the second and the hash with the sealed static key; the initiator accepts exactly when it knows no authority, or one under which the certificate's signature verifies, inside the certificate's time; under the responder's own authority it verifies |
| Roles.InitiatorFollows | protocols/v2/noise-sv2/src/initiator.rs:313-401 | on the responder's own message the initiator reaches the responder's state and judges the certificate that was sent |
| Roles.ResponderAnswers | protocols/v2/noise-sv2/src/responder.rs:295-390 | the responder always answers, with 64 + 80 + 90 bytes laid out as the initiator reads them, whose sealed parts are bound to the transcript |
| Roles.ResponderTranscript | protocols/v2/noise-sv2/src/responder.rs:295-390 | its final hash is the hash chain of the five transcript parts, its chaining key that of the two secrets |
| Roles.CertificateAccepted | protocols/v2/noise-sv2/src/signature_message.rs:91-115 | the certificate in that message is accepted exactly from its first to its last second by an initiator whose authority signed it, and always by one without an authority |
| Roles.CertificateRoundTrip | protocols/v2/noise-sv2/src/signature_message.rs:52-63 | version, times and signature read back from the 74 bytes as written, and the signature covers the static key |
| Roles.CertificateLayout | protocols/v2/noise-sv2/src/responder.rs:399-422 | the 74 bytes are version 0, both times least significant byte first, and the signature over these ten bytes and the static key |
| Roles.Initiator.Step0 | protocols/v2/noise-sv2/src/initiator.rs:266-274 | the encoded ephemeral key is sent and mixed |
| Roles.Initiator.Step2 | protocols/v2/noise-sv2/src/initiator.rs:313-401 | decrypts, agrees, verifies and makes the codec as `Act3` says, with counters 0, or gives the error; the handshake state is the one of `Act3` in every outcome |
| Roles.Responder.Step1 | protocols/v2/noise-sv2/src/responder.rs:295-390 | the answer, the final state and the codec as `Act2` says, with counters 0, or nothing |
| Roles.Responder.AcceptEphemeral | protocols/v2/noise-sv2/src/responder.rs:301-331 | the first message and the first shared secret are mixed in |
| Roles.Responder.SendStatic | protocols/v2/noise-sv2/src/responder.rs:333-356 | the static key goes out sealed and the second secret is mixed in |
| Roles.Responder.SendCertificate | protocols/v2/noise-sv2/src/responder.rs:358-368 | the signed certificate goes out sealed |
| Roles.GetSignature | protocols/v2/noise-sv2/src/responder.rs:399-422 | the 74-byte message: version, times, and the signature over them and the static key |
| Roles.SignInto | protocols/v2/noise-sv2/src/signature_message.rs:137-150 | the signature lands after the ten bytes it covers, which stay |
| Roles.FillResponse | protocols/v2/noise-sv2/src/responder.rs:306-368 | the three regions of the answer, in order |
| Framing.HeaderRoundTrip | protocols/v2/framing-sv2/src/header.rs:55-67 | a printed header reads back, whatever follows it |
| Framing.HeaderLayout | protocols/v2/framing-sv2/src/header.rs:55-67 | the six bytes are extension type, message type and 24-bit length, the numbers least significant byte first, in print and in reading |
| Framing.Sizes | protocols/v2/framing-sv2/src/header.rs:118-126 | in numbers: an encrypted header is 22 bytes, and a payload gains 16 bytes for each 65519 or part of them |
| Framing.ValidFrameHeader | protocols/v2/framing-sv2/src/framing.rs:135-143 | the header of every frame is the one its bytes start with, and it is well formed exactly when those declare their length |
| Framing.FromBytesExact | protocols/v2/framing-sv2/src/framing.rs:123-131 | bytes are taken as a frame exactly when the header declares the length of the rest |
| Framing.SizeHintExact | protocols/v2/framing-sv2/src/framing.rs:153-169 | the hint counts the missing bytes exactly up to a whole header and at the whole frame, and nowhere else |
| Framing.SizeHintMiscounts | protocols/v2/framing-sv2/src/framing.rs:153-169 | a frame one byte short for which the hint says three |
| Framing.FromMessageExact | protocols/v2/framing-sv2/src/framing.rs:188-202 | a frame comes back exactly when the size cast to 32 bits fits in 24, and declares its true length exactly when the size itself fits |
| Framing.FromMessageSurvives | protocols/v2/framing-sv2/src/framing.rs:188-202 | type, channel bit, fifteen extension bits and payload survive the wire |
| Framing.FromMessageWraps | protocols/v2/framing-sv2/src/framing.rs:188-202 | a message of 2^32 bytes is framed as an empty one |
| Framing.UpdateExtensionType | protocols/v2/framing-sv2/src/framing.rs:290-298 | the channel bit is as asked and the other bits are kept |
| Framing.EncryptedLenStep | protocols/v2/framing-sv2/src/header.rs:118-126 | a further full piece adds one full chunk |
| Framing.EncryptedLenStrict | protocols/v2/framing-sv2/src/header.rs:118-126 | different payload lengths never have the same encrypted length |
| PlainCodec.PlainRoundTrip | roles/roles-utils/network-helpers/src/plain_connection.rs:47-71 | for every list of frames the encoder takes: those before the first that misdeclares its length or declares the size taken for a handshake message arrive in order, nothing ever arrives as that one, and a hang-up leaves its header read and all after it unread; so all arrive if and only if all declare their lengths and none declares that size, and then nothing is left |
| PlainCodec.WellFormedRoundTrip | roles/roles-utils/network-helpers/src/plain_connection.rs:47-71 | for frames that declare their lengths, empty payloads included, the loop still reads if and only if no payload has 3363412 bytes, and what comes out is exactly the frames before the first that has |
| PlainCodec.ReceiveConserves | protocols/v2/codec-sv2/src/decoder.rs:367-394 | on any bytes whatever, the frames put out, the bytes held and the bytes unread are together the bytes received, in order, and every frame put out declares its length |
| PlainCodec.PlainFalseFrame | protocols/v2/framing-sv2/src/framing.rs:135-143 | nothing comes out of the frame of the bytes 0 0 0 2 0 0 7, which the unchecked constructor makes: its last byte waits for another |
| PlainCodec.PlainHangsUp | roles/roles-utils/network-helpers/src/plain_connection.rs:59-66 | a well formed frame of 3363412 payload bytes that ends the connection |
| PlainCodec.ReceiveResumes | roles/roles-utils/network-helpers/src/plain_connection.rs:47-71 | the read loop can stop between any two bytes and go on later with the same result, unless it has hung up, and then nothing more is read |
| PlainCodec.CutRoundTrip | roles/roles-utils/network-helpers/src/plain_connection.rs:47-71 | so the round trip holds for every list of frames and every cut of the stream |
| PlainCodec.PlainDecoder.NextFrame | protocols/v2/codec-sv2/src/decoder.rs:367-384 | frame, hint and buffer of `NextPlain` |
| PlainCodec.PlainDecoder.Feed | protocols/v2/codec-sv2/src/decoder.rs:392-394 | filling the writable slice appends |
| PlainCodec.PlainDecoder.ReadLoop | roles/roles-utils/network-helpers/src/plain_connection.rs:47-71 | the loop of a plain connection, with its hang-up, is `Receive` |
| PlainCodec.PlainEncoder.Encode | protocols/v2/codec-sv2/src/encoder.rs:273-284 | the bytes are the serialization of the frame, whatever the vector held before |
| Merkle.FoldIsRoot | protocols/v2/channels-sv2/src/merkle_root.rs:67-75 | folding the coinbase id with the path is the root of the full tree, last node doubled on odd levels, for every list of transactions |
| Merkle.PathIsLeftSpine | protocols/v2/channels-sv2/src/merkle_root.rs:56-61 | the path computed without the coinbase is the left spine of the full tree, whatever the coinbase |
| Merkle.ReducePath | protocols/v2/channels-sv2/src/merkle_root.rs:67-75 | the loop is the fold |
| Merkle.MerkleRootFromPath_ | protocols/v2/channels-sv2/src/merkle_root.rs:56-61 | on the path of a block the result is the block's root |
| Merkle.RootOfThree | protocols/v2/channels-sv2/src/merkle_root.rs:67-75 | one, two and three leaves in plain hashes: double SHA-256, left before right, the odd one with itself |
| Bitcoin.TransactionRoundTrip | protocols/v2/channels-sv2/src/merkle_root.rs:35-41 | every transaction, with or without witnesses or inputs, reads back from its serialization of BIP 144 |
| Bitcoin.WrittenOut | protocols/v2/channels-sv2/src/merkle_root.rs:35-41 | both forms of a transaction of one input and one output, byte by byte |
| Bitcoin.SizeLayout | protocols/v2/channels-sv2/src/merkle_root.rs:35-41 | the four forms of a size and their bounds, least significant byte first |
| Bitcoin.ReadSizeExact | protocols/v2/channels-sv2/src/merkle_root.rs:35-41 | a size is read exactly where it stands in its one shortest form |
| Bitcoin.LegacyRead | protocols/v2/channels-sv2/src/merkle_root.rs:35-41 | the legacy form reads back as the transaction without its witnesses |
| Bitcoin.ExtendedRead | protocols/v2/channels-sv2/src/merkle_root.rs:35-41 | the form with marker, flag and witnesses reads back whole |
| Bip141.StrippingPreservesRoot | protocols/v2/channels-sv2/src/bip141.rs:36-81 | for every coinbase, every extranonce that fits and every block: the stripped halves around the extranonce are the legacy serialization, and both pairs of halves give the root of the full tree over the same id |
| Bip141.StripsCoinbase | protocols/v2/channels-sv2/src/bip141.rs:36-81 | every coinbase in extended form, for an extranonce of any length, is cut to the halves of its legacy form |
| Bip141.SplitSerializes | protocols/v2/channels-sv2/src/merkle_root.rs:30-34 | prefix, extranonce and suffix make the serialization, extended and legacy |
| Bip141.NeverStripsUnmarked | protocols/v2/channels-sv2/src/bip141.rs:47-61 | whatever the input, nothing is cut unless the byte after the version is the marker |
| Bip141.RestripsNothing | protocols/v2/channels-sv2/src/bip141.rs:36-61 | with room for a 32-byte extranonce, stripping the stripped halves finds nothing to do |
| Bip141.RestripNeverCuts | protocols/v2/channels-sv2/src/bip141.rs:36-61 | with any extranonce the stripped halves are never cut again |
| Bip141.RestripExact | protocols/v2/channels-sv2/src/bip141.rs:36-61 | for every coinbase and every extranonce that fits: stripping the stripped halves again depends on the bytes that 32 zeros and the suffix leave after the place of the extranonce and the rest of the script, and says nothing to do, or which part it cannot read, as those bytes say |
| Bip141.RestripByLength | protocols/v2/channels-sv2/src/bip141.rs:36-61 | for a script that ends with the extranonce and a sequence number of high bytes that is nothing to do exactly for 32 bytes or at most 27 |
| Bip141.RestripMayFail | protocols/v2/channels-sv2/src/bip141.rs:40-45 | three stripped coinbases: refused with a 31-byte extranonce, refused with a 20-byte one followed by script bytes, and left alone with a 28-byte one before a zero sequence number |
| Target.OptimalExactly | protocols/v2/channels-sv2/src/target.rs:130-150 | the quotient is the largest target that allows for the work, exactly when the 128-bit addition does not wrap |
| Target.QuotientClosed | protocols/v2/channels-sv2/src/target.rs:130-150 | in closed form: 2^256 divided by work + 1, less one |
| Target.StrictlyDecreasing | protocols/v2/channels-sv2/src/target.rs:130-150 | more work, a strictly smaller target |
| Target.WrappedQuotient | protocols/v2/channels-sv2/src/target.rs:137-137 | at work 2^128 - 1 the target is one more than the optimal one |
| Target.HashRateToTarget | protocols/v2/channels-sv2/src/target.rs:130-153 | the 32 bytes decode, least significant first, to that target |
| Target.FromU128ToU256 | protocols/v2/channels-sv2/src/target.rs:156-163 | widening keeps the number |
| Work.DifficultyBounds | protocols/ehash/src/work.rs:28-41 | for a hash read big-endian as V with d leading zero bits, V < 2^(bits-d), and V >= 2^(bits-1-d) unless it is zero |
| Work.CalculateDifficulty | protocols/ehash/src/work.rs:28-41 | the loop with its early break counts the leading zero bits |
| Work.CalculateEhashAmount | protocols/ehash/src/work.rs:11-25 | the amount for that count and threshold |
| Work.AmountIsPower | protocols/ehash/src/work.rs:11-25 | zero, or a power of two of at most 2^63 |
| Work.AmountCapped | protocols/ehash/src/work.rs:11-25 | in numbers: 0 below the threshold, 1 at it, twice as much for each further bit, and 2^63 from 63 bits on |
| Work.AmountAntitone | protocols/ehash/src/work.rs:11-25 | a smaller hash never earns less |
| Work.AmountBounded | protocols/ehash/src/work.rs:11-25 | amount times 2^threshold times V stays below 2^256 |
| Work.AmountLargest | protocols/ehash/src/work.rs:11-25 | no larger power of two up to the cap stays below |
| Hex.HexRoundTrip | protocols/v1/src/utils.rs:45-51 | hex strings decode to the bytes they print, by both decoders |
| Hex.EncodeDigits | protocols/v1/src/utils.rs:61-65 | two lower-case digits for a byte, the high one first |
| Hex.DecodeExact | protocols/v1/src/utils.rs:45-51 | decoded are exactly the even strings of digits in either case, to the bytes of the number they write, most significant first |
| Hex.DecodePaddedExact | protocols/v1/src/utils.rs:45-51 | with the leading zero, exactly the strings of digits of any length |
| Hex.WordRoundTrip | protocols/v1/src/utils.rs:97-117 | a padded word reads back |
| Hex.WordExact | protocols/v1/src/utils.rs:97-110 | a word is the number that at most eight digits write; past eight the length subtraction underflows |
| Hex.WordPadded | protocols/v1/src/utils.rs:97-110 | leading zeros of a word do not matter |
| Hex.ParseHexU32Be | protocols/v1/src/utils.rs:97-110 | the padding loop reads at most eight digits, and underflows past eight |
| Hex.PrevHashRoundTrip | protocols/v1/src/utils.rs:163-215 | the previous hash survives its per-word byte swap both ways |
| Hex.PrevHashWords | protocols/v1/src/utils.rs:163-215 | each of the eight words stays in its place and is written in the other byte order; which strings are malformed and which panic |
| Hex.PrevHashFromHex | protocols/v1/src/utils.rs:163-192 | the loop over words swaps each |
| Hex.PrevHashToHex | protocols/v1/src/utils.rs:203-215 | the loop over words swaps each |
| Hex.CheckMaskExact | protocols/v1/src/utils.rs:85-89 | the mask test says that every bit set is one the mask has |
| Hex.NegotiateTotal | protocols/v1/src/methods/server_to_client.rs:598-616 | the negotiated mask is the common part of the asked-for mask and 0x1FFFE000, and the head and tail checks never fail |
| Sv1Requests.AuthorizeRoundTrip | protocols/v1/src/methods/client_to_server.rs:44-70 | print then parse is the identity |
| Sv1Requests.AuthorizeParams | protocols/v1/src/methods/client_to_server.rs:44-70 | name then password, in print and, exactly, in reading |
| Sv1Requests.SubmitRoundTrip | protocols/v1/src/methods/client_to_server.rs:142-222 | print then parse is the identity, for extranonces of at most 32 bytes, with or without version bits |
| Sv1Requests.SubmitParamsExact | protocols/v1/src/methods/client_to_server.rs:164-222 | a share is read exactly from these places: user name, job, extranonce2 of at most 32 bytes, time, nonce, and version bits if there is a sixth |
| Sv1Requests.SubmitPrinted | protocols/v1/src/methods/client_to_server.rs:142-162 | and printed into them, under mining.submit |
| Sv1Requests.ReadWordExact | protocols/v1/src/methods/client_to_server.rs:164-222 | a word is a string of at most eight digits or a number cut to 32 bits; a fraction or a longer string panics |
| Sv1Requests.SubscribeRoundTrip | protocols/v1/src/methods/client_to_server.rs:295-338 | print then parse is the identity |
| Sv1Requests.SubscribeParamsExact | protocols/v1/src/methods/client_to_server.rs:311-338 | a subscription is read exactly from these places: signature, then nothing, fillers, or an extranonce of at most 32 bytes |
| Sv1Requests.SubscribePrinted | protocols/v1/src/methods/client_to_server.rs:295-309 | and printed into them, under mining.subscribe |
| Sv1Requests.ConfigureRoundTripExactly | protocols/v1/src/methods/client_to_server.rs:403-572 | a configure request survives print and parse exactly when its extensions are at most one subscription, one masked version rolling and one info with nothing but an address, in this order |
| Sv1Requests.ExtensionsRead | protocols/v1/src/methods/client_to_server.rs:443-572 | a request that is read has exactly the extensions its names and its fields give, key by key; a bit count without a mask is malformed |
| Sv1Requests.ConfigurePrinted | protocols/v1/src/methods/client_to_server.rs:403-423 | the request for a mask and a bit count, key by key, or the empty one |
| Sv1Requests.MaskedIsCanonical | protocols/v1/src/methods/client_to_server.rs:347-363 | the requests a client sends with a mask, and the empty one, are of that kind |
| Sv1Requests.MaskIsLast | protocols/v1/src/methods/client_to_server.rs:381-400 | the last version rolling decides: its own mask, or 0x1FFFE000 when it has none, and its own bit count, or 0; neither without a version rolling |
| Sv1Requests.VersionRollingMask | protocols/v1/src/methods/client_to_server.rs:381-389 | the loop gives that mask |
| Sv1Requests.VersionRollingMinBitCount | protocols/v1/src/methods/client_to_server.rs:391-400 | the loop gives that bit count |
| Sv1Responses.NotifyRoundTrip | protocols/v1/src/methods/server_to_client.rs:51-144 | print then parse is the identity |
| Sv1Responses.NotifyParamsExact | protocols/v1/src/methods/server_to_client.rs:83-144 | a job is read exactly from its nine places, each with its encoding |
| Sv1Responses.NodeExact | protocols/v1/src/methods/server_to_client.rs:122-130 | a branch node that is no hex is malformed, and one of another length than 32 bytes panics |
| Sv1Responses.ParseMerkleBranch | protocols/v1/src/methods/server_to_client.rs:122-130 | the loop stops at the first node that fails |
| Sv1Responses.SetExtranonceRoundTrip | protocols/v1/src/methods/server_to_client.rs:200-233 | print then parse is the identity |
| Sv1Responses.SetExtranonceParams | protocols/v1/src/methods/server_to_client.rs:200-233 | read exactly from its two places |
| Sv1Responses.SetVersionMaskParams | protocols/v1/src/methods/server_to_client.rs:241-274 | a mask is read exactly from its one place; the printed name is mining.set_version |
| Sv1Responses.SubscribedRoundTrip | protocols/v1/src/methods/server_to_client.rs:359-420 | print then parse is the identity, for any list of subscriptions |
| Sv1Responses.SubscribedParams | protocols/v1/src/methods/server_to_client.rs:377-420 | read exactly from its three places: subscription pairs, extranonce, size |
| Sv1Responses.ConfiguredRoundTrip | protocols/v1/src/methods/server_to_client.rs:456-545 | print then parse is the identity |
| Sv1Responses.ConfiguredParams | protocols/v1/src/methods/server_to_client.rs:475-545 | read exactly from its keys; a missing bit count is 0 |
| Sv1Responses.ClassifyExclusive | protocols/v1/src/methods/mod.rs:297-314 | no result is two kinds of response, so the panic for that is never reached; array, object and boolean tell the kinds apart |
| Sv1Responses.ClassifyPrinted | protocols/v1/src/methods/mod.rs:297-314 | responses as printed are classified as what they are |
| Sv1Methods.RequestsRead | protocols/v1/src/methods/mod.rs:214-255 | each printed request is read as that request, a configure request exactly when it is canonical |
| Sv1Methods.KnownNames | protocols/v1/src/methods/mod.rs:214-286 | which names are known, for requests and for notifications, and those that take no parameters |
| Sv1Methods.MaskRead | protocols/v1/src/methods/mod.rs:256-286 | a version mask is read under mining.set_version_mask |
| Sv1Methods.LongExtranoncePanics | protocols/v1/src/methods/client_to_server.rs:164-222 | an extranonce of over 32 bytes panics its reader, in a share, a subscription or an announcement |
| Sv1Methods.NoticesRead | protocols/v1/src/methods/mod.rs:256-286 | each printed notification is read as what it is, but for the version mask, whose printed name is not read |
| Sv1Methods.AnswersRead | protocols/v1/src/methods/mod.rs:287-291 | each printed response is read as what it is |
| Sv1Methods.ReadNeverImpossible | protocols/v1/src/methods/mod.rs:214-314 | no message is read as two things, and a boolean result is read with its own id and value |
| Sv1Client.RunConsistent | protocols/v1/src/lib.rs:244-363 | after every run the status is that of the latest opening response, the stored notify is that of the latest accepted notify, mask, bit count and extranonce are those stored last, and recorded requests and authorized names are exactly those the earlier steps explain |
| Sv1Client.EveryOutcomeFits | protocols/v1/src/lib.rs:244-507 | what every step of every run comes to, in terms of the past: which request goes out and that the server reads it as the one asked for (the share, the name and password, the subscription, the mask and bit count stored last), and what each received message leads to |
| Sv1Client.CountNeedsMask | protocols/v1/src/lib.rs:318-363 | in no run is there a bit count without a mask, so no configure request is malformed |
| Sv1Client.SendsOnlyWhenOpen | protocols/v1/src/lib.rs:446-507 | in every run nothing but configure is sent before an accepted configure or subscribe response, subscribe and authorize are sent exactly after one, and neither impossible state is reached |
| Sv1Client.SubmitsExactly | protocols/v1/src/lib.rs:474-507 | in every run a submit is sent if and only if an opening response and a notify came before and the name is that of the latest authorize request under some id which was answered true before that id was a submit id; it carries name, job id of the latest notify, extranonce2, time, nonce, version bits and id in their places, and the server reads it as that share |
| Sv1Client.OnlySubmitSubmits | protocols/v1/src/lib.rs:474-507 | nothing else sends a submit |
| Sv1Client.NeverImpossible | protocols/v1/src/lib.rs:318-363 | handling any message in any state never reaches a general response |
| Sv1Client.SubscribeAnswerOpens | protocols/v1/src/lib.rs:345-351 | a run in which an unasked-for subscribe response opens a client that was never configured |
| Sv1Client.ClientConnection.Update | protocols/v1/src/lib.rs:267-288 | known authorize ids, known submit ids and unknown ids as written |
| Sv1Client.ClientConnection.Respond | protocols/v1/src/lib.rs:318-363 | the state and message for each kind of response |
| Sv1Client.ClientConnection.Notice | protocols/v1/src/lib.rs:291-316 | what each notification sets |
| Sv1Client.ClientConnection.Message | protocols/v1/src/lib.rs:244-265 | each message takes the step its reading says, never an impossible one |
| Sv1Client.ClientConnection.Configure | protocols/v1/src/lib.rs:433-444 | the request with the stored mask and bit count, or the empty one |
| Sv1Client.ClientConnection.Subscribe | protocols/v1/src/lib.rs:446-460 | refused before the first response |
| Sv1Client.ClientConnection.Authorize | protocols/v1/src/lib.rs:462-472 | refused before the first response; otherwise sent and recorded |
| Sv1Client.ClientConnection.Submit | protocols/v1/src/lib.rs:474-507 | sent for the job last notified and an authorized name, otherwise refused |
| Sv1Client.ClientConnection.Replay | protocols/v1/src/lib.rs:244-507 | the object goes through every run as the step function does; no impossible state is reached, and every outcome is the one `EveryOutcomeFits` states |
| Sv1Server.SubmitHandedExactly | protocols/v1/src/lib.rs:116-138 | in every run a share reaches the submit handler exactly when its name was authorized in an earlier step, its extranonce2 has the length set last, and its version bits are there exactly when a mask is stored and lie inside it bit by bit; otherwise it is an error |
| Sv1Server.OnlySubmitsHanded | protocols/v1/src/lib.rs:86-150 | nothing but a submit request reaches the submit handler |
| Sv1Server.RunConsistent | protocols/v1/src/lib.rs:62-150 | after every run: authorized names, extranonce and its size, mask and bit count are those the steps set last, the mask and count as the request asks for them |
| Sv1Server.EveryOutcomeFits | protocols/v1/src/lib.rs:62-226 | what every step of every run comes to: what the client reads each reply as, and the share handed on, exactly when the past allows it |
| Sv1Server.BitsAllowedExact | protocols/v1/src/lib.rs:117-126 | the version-bit test is containment in the stored mask (BIP 310) |
| Sv1Server.StepEffects | protocols/v1/src/lib.rs:86-150 | what one message can change: a name, the size, the mask |
| Sv1Server.ServerConnection.Handle | protocols/v1/src/lib.rs:86-150 | state, reply and handed share for each request |
| Sv1Server.ServerConnection.Judge | protocols/v1/src/lib.rs:116-138 | the three tests of a submission |
| Sv1Server.ServerConnection.Message | protocols/v1/src/lib.rs:62-83 | requests and notifications are handled, responses refused |
| Sv1Server.ServerConnection.Update | protocols/v1/src/lib.rs:213-226 | both extranonce fields are set and announced |
| Sv1Server.ServerConnection.Replay | protocols/v1/src/lib.rs:62-226 | the object goes through every run as the step function does; every outcome is the one `EveryOutcomeFits` states, and nothing but a submit is handed on |
| Keyset.WireRoundTrip | protocols/ehash/src/sv2.rs:72-114 | any 64 keys survive the 41-byte chunks unchanged |
| Keyset.WireLayout | protocols/ehash/src/sv2.rs:93-114 | each key stands in its own 41 bytes: amount least significant byte first, parity byte, x coordinate |
| Keyset.KeyLayout | protocols/ehash/src/sv2.rs:72-91 | the same of one key, printed and read; the parity is the lowest bit of its byte |
| Keyset.WireRoundTripBack | protocols/ehash/src/sv2.rs:72-114 | any 2624 bytes print back as they were exactly when each parity byte is 0 or 1 |
| Keyset.KeysetWireRoundTrip | protocols/ehash/src/sv2.rs:116-131 | a keyset keeps its keys across the wire, and its id exactly when that is the one computed from the keys |
| Keyset.EncodeKeys | protocols/ehash/src/sv2.rs:93-114 | the loop over the buffer writes the chunks one after another |
| Keyset.DecodeKeys | protocols/ehash/src/sv2.rs:72-91 | the loop over the chunks reads 64 keys, or refuses the length |
| Keyset.CdkRoundTrip | protocols/ehash/src/sv2.rs:141-169 | for ids of every length: a CDK keyset of 64 entries comes back with its map and its id padded with zeros, if the CDK knows that id, whole exactly when the id has eight bytes and it was in unit HASH without expiry; an id over eight bytes panics, and any other count is refused with that count |
| Keyset.Sv2RoundTrip | protocols/ehash/src/sv2.rs:141-169 | the other way round the keys come back sorted by amount when the amounts are distinct, and are refused for their count when they are not |
| Keyset.MapHolds | protocols/ehash/src/keyset.rs:90-103 | the map holds every key once exactly when the amounts are distinct, in ascending order |
| Keyset.MapExact | protocols/ehash/src/keyset.rs:90-103 | the map holds exactly the points of the last key of each amount: byte 3 for an odd key and 2 for an even one, then its x coordinate |
| Keyset.FirstBadKey | protocols/ehash/src/keyset.rs:90-103 | it fails exactly when some key is no point, and names the first |
| Keyset.SigningKeysToCdk | protocols/ehash/src/keyset.rs:90-103 | the insertion loop, stopping at the first bad point; the map is ascending and holds exactly the points `MapExact` says |
| Keyset.SigningKeysFromCdk | protocols/ehash/src/keyset.rs:63-88 | the loop over the map in its order and the count check; each key is the one its point writes, odd exactly behind byte 3 |
| LineSplitter.HandlePoolConnection | roles/stats-pool/src/main.rs:79-117 | for every division of the stream into reads, the messages handled are the non-empty lines of the whole stream in order, and what is left is its unterminated tail |
| LineSplitter.Drain | roles/stats-proxy/src/main.rs:101-112 | the inner loop takes whole lines off the front and ends |
| LineSplitter.DivisionUnique | roles/stats-pool/src/main.rs:95-107 | a stream divides into lines and tail in one way |
| LineSplitter.NonEmptyExact | roles/stats-pool/src/main.rs:95-107 | handled is every line that is not empty, as often as it came |
| LineSplitter.LineExample | roles/stats-pool/src/main.rs:95-107 | a line ends at byte 10, which is no part of it |
| LineSplitter.Position | roles/stats-pool/src/main.rs:97-97 | the first newline |

## Left out

- Further calls to a decoder after a failed decryption, whose window is then not at the start: callers drop the connection.
- `BufferPool` and its slices: the codec is modelled over `BufferFromSystemMemory`.
- The AES-GCM variant of the cipher, key erasure and `Drop`, `hkdf_3` and plain ECDH: not used by the handshake, or memory effects only.
- The `State` enum's step methods and their errors: one branch each around the roles.
- The message type of a frame is its serialization: the binary_sv2 encoders of messages are not modelled.
- `parsers-sv2`, `handlers-sv2`: dispatch tables without interacting state.
- Floating point: `hash_rate_to_target` starts at the 128-bit product, `target_to_difficulty` and difficulty values are not modelled.
- Bitcoin consensus rules beyond the shape of a transaction on the wire, and the library's limits on vector sizes.
- V1 JSON text: messages are JSON values; numbers are unsigned integers or something else. Lengths of strings are counted in characters.
- V1 parser panics other than the two impossible states (over-long words and extranonces, nodes of a wrong length, entries that are no arrays) are outcomes of the model (`Panics`), and no claim is made that they cannot be reached.
- Clean-up of sockets and channels.
- `protocols/ehash` quotes, shares and locking keys; the roles apart from the splitter loops: configuration, HTTP, storage.
